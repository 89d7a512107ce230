// The scaling of a double by a cached power of ten, which brings its binary
// exponent into the range that the fast printer works in.
module CachedPowers {
  import opened Words
  import opened Powers
  import opened Rounding
  import opened Scaling
  import opened CountDigitsModel

  // 10^exp10 is nearly f * 2^e.
  datatype CachedPower = CachedPower(f: nat, e: int, exp10: int)

  // A row of the two tables, for every eighth power of ten from 10^-348 on. The
  // third number, in the proofs only, says by how many millionths f exceeds what
  // it stands for.
  datatype Row = Row(f: nat, e: int, millionths: int)

  const ROWS_0: seq<Row> := [
    Row(0xfa8fd5a0081c0288, -1220, -90619), Row(0xbaaee17fa23ebf76, -1193, -365139),
    Row(0x8b16fb203055ac76, -1166, -297787), Row(0xcf42894a5dce35ea, -1140, -320409),
    Row(0x9a6bb0aa55653b2d, -1113, -280063), Row(0xe61acf033d1a45df, -1087, -436419),
    Row(0xab70fe17c79ac6ca, -1060, -428671), Row(0xff77b1fcbebcdc4f, -1034, -148085)
  ]

  const ROWS_8: seq<Row> := [
    Row(0xbe5691ef416bd60c, -1007, -139841), Row(0x8dd01fad907ffc3c, -980, 319372),
    Row(0xd3515c2831559a83, -954, -52160), Row(0x9d71ac8fada6c9b5, -927, -435413),
    Row(0xea9c227723ee8bcb, -901, -274873), Row(0xaecc49914078536d, -874, -347579),
    Row(0x823c12795db6ce57, -847, -463947), Row(0xc21094364dfb5637, -821, 404891)
  ]

  const ROWS_16: seq<Row> := [
    Row(0x9096ea6f3848984f, -794, -249768), Row(0xd77485cb25823ac7, -768, -489795),
    Row(0xa086cfcd97bf97f4, -741, 496450), Row(0xef340a98172aace5, -715, 472724),
    Row(0xb23867fb2a35b28e, -688, 87427), Row(0x84c8d4dfd2c63f3b, -661, -163770),
    Row(0xc5dd44271ad3cdba, -635, -253661), Row(0x936b9fcebb25c996, -608, 208236)
  ]

  const ROWS_24: seq<Row> := [
    Row(0xdbac6c247d62a584, -582, 127839), Row(0xa3ab66580d5fdaf6, -555, 245142),
    Row(0xf3e2f893dec3f126, -529, -353666), Row(0xb5b5ada8aaff80b8, -502, -52759),
    Row(0x87625f056c7c4a8b, -475, -67491), Row(0xc9bcff6034c13053, -449, 13524),
    Row(0x964e858c91ba2655, -422, -228180), Row(0xdff9772470297ebd, -396, -349495)
  ]

  const ROWS_32: seq<Row> := [
    Row(0xa6dfbd9fb8e5b88f, -369, 205859), Row(0xf8a95fcf88747d94, -343, -459538),
    Row(0xb94470938fa89bcf, -316, 31114), Row(0x8a08f0f8bf0f156b, -289, -107645),
    Row(0xcdb02555653131b6, -263, -217086), Row(0x993fe2c6d07b7fac, -236, 104391),
    Row(0xe45c10c42a2b3b06, -210, 450308), Row(0xaa242499697392d3, -183, 133224)
  ]

  const ROWS_40: seq<Row> := [
    Row(0xfd87b5f28300ca0e, -157, 453940), Row(0xbce5086492111aeb, -130, 465016),
    Row(0x8cbccc096f5088cc, -103, 26374), Row(0xd1b71758e219652c, -77, 172800),
    Row(0x9c40000000000000, -50, 0), Row(0xe8d4a51000000000, -24, 0),
    Row(0xad78ebc5ac620000, 3, 0), Row(0x813f3978f8940984, 30, -250000)
  ]

  const ROWS_48: seq<Row> := [
    Row(0xc097ce7bc90715b3, 56, -295396), Row(0x8f7e32ce7bea5c70, 83, 107391),
    Row(0xd5d238a4abe98068, 109, -447824), Row(0x9f4f2726179a2245, 136, -7193),
    Row(0xed63a231d4c4fb27, 162, -299433), Row(0xb0de65388cc8ada8, 189, -231043),
    Row(0x83c7088e1aab65db, 216, -473242), Row(0xc45d1df942711d9a, 242, -232999)
  ]

  const ROWS_56: seq<Row> := [
    Row(0x924d692ca61be758, 269, -348574), Row(0xda01ee641a708dea, 295, 93530),
    Row(0xa26da3999aef774a, 322, 110376), Row(0xf209787bb47d6b85, 348, 248420),
    Row(0xb454e4a179dd1877, 375, -163006), Row(0x865b86925b9bc5c2, 402, -45077),
    Row(0xc83553c5c8965d3d, 428, -435829), Row(0x952ab45cfa97a0b3, 455, 134455)
  ]

  const ROWS_64: seq<Row> := [
    Row(0xde469fbd99a05fe3, 481, -436682), Row(0xa59bc234db398c25, 508, -265545),
    Row(0xf6c69a72a3989f5c, 534, 458293), Row(0xb7dcbf5354e9bece, 561, -47149),
    Row(0x88fcf317f22241e2, 588, -266112), Row(0xcc20ce9bd35c78a5, 614, -195008),
    Row(0x98165af37b2153df, 641, 236534), Row(0xe2a0b5dc971f303a, 667, -180735)
  ]

  const ROWS_72: seq<Row> := [
    Row(0xa8d9d1535ce3b396, 694, -496463), Row(0xfb9b7cd9a4a7443c, 720, -88261),
    Row(0xbb764c4ca7a44410, 747, 385054), Row(0x8bab8eefb6409c1a, 774, -104745),
    Row(0xd01fef10a657842c, 800, -176444), Row(0x9b10a4e5e9913129, 827, 209031),
    Row(0xe7109bfba19c0c9d, 853, -49882), Row(0xac2820d9623bf429, 880, -329640)
  ]

  const ROWS_80: seq<Row> := [
    Row(0x80444b5e7aa7cf85, 907, -474622), Row(0xbf21e44003acdd2d, 933, 123916),
    Row(0x8e679c2f5e44ff8f, 960, -340073), Row(0xd433179d9c8cb841, 986, -373627),
    Row(0x9e19db92b4e31ba9, 1013, -421992), Row(0xeb96bf6ebadf77d9, 1039, 108942),
    Row(0xaf87023b9bf0ee6b, 1066, 79839)
  ]

  const ROWS := 87

  function RowAt(index: nat): Row
    requires index < ROWS
  {
    if index < 8 then ROWS_0[index]
    else if index < 16 then ROWS_8[index - 8]
    else if index < 24 then ROWS_16[index - 16]
    else if index < 32 then ROWS_24[index - 24]
    else if index < 40 then ROWS_32[index - 32]
    else if index < 48 then ROWS_40[index - 40]
    else if index < 56 then ROWS_48[index - 48]
    else if index < 64 then ROWS_56[index - 56]
    else if index < 72 then ROWS_64[index - 64]
    else if index < 80 then ROWS_72[index - 72]
    else ROWS_80[index - 80]
  }

  function Exp10(index: nat): int {
    8 * index - 348
  }

  // The logarithm of two in units of 2^-32, rounded down.
  const LOG10_2 := 0x4d104d42

  // f is normalised, and e lies where the index formula looks for it.
  predicate RowPlaced(row: Row, exp10: int) {
    && 0x8000_1000_0000_0000 <= row.f < U64 && -498_000 <= row.millionths <= 498_000
    && (row.e + 34) * LOG10_2 <= (exp10 - 8) * U32 && exp10 * U32 < (row.e + 64) * LOG10_2
  }

  // The next row is 10^8 times this one, up to a rounding of the millionths.
  predicate RowsAgree(row: Row, next: Row) {
    var y, y' := 1_000_000 * row.f - row.millionths, 1_000_000 * next.f - next.millionths;
    || (next.e == row.e + 26 && -100_000_000 <= 0x400_0000 * y' - 100_000_000 * y <= 100_000_000)
    || (next.e == row.e + 27 && -100_000_000 <= 0x800_0000 * y' - 100_000_000 * y <= 100_000_000)
  }

  lemma RowsFrom0(index: nat)
    requires 0 <= index < 8
    ensures RowPlaced(RowAt(index), Exp10(index))
    ensures RowsAgree(RowAt(index), RowAt(index + 1))
  {
  }

  lemma RowsFrom8(index: nat)
    requires 8 <= index < 16
    ensures RowPlaced(RowAt(index), Exp10(index))
    ensures RowsAgree(RowAt(index), RowAt(index + 1))
  {
  }

  lemma RowsFrom16(index: nat)
    requires 16 <= index < 24
    ensures RowPlaced(RowAt(index), Exp10(index))
    ensures RowsAgree(RowAt(index), RowAt(index + 1))
  {
  }

  lemma RowsFrom24(index: nat)
    requires 24 <= index < 32
    ensures RowPlaced(RowAt(index), Exp10(index))
    ensures RowsAgree(RowAt(index), RowAt(index + 1))
  {
  }

  lemma RowsFrom32(index: nat)
    requires 32 <= index < 40
    ensures RowPlaced(RowAt(index), Exp10(index))
    ensures RowsAgree(RowAt(index), RowAt(index + 1))
  {
  }

  lemma RowsFrom40(index: nat)
    requires 40 <= index < 48
    ensures RowPlaced(RowAt(index), Exp10(index))
    ensures RowsAgree(RowAt(index), RowAt(index + 1))
  {
  }

  lemma RowsFrom48(index: nat)
    requires 48 <= index < 56
    ensures RowPlaced(RowAt(index), Exp10(index))
    ensures RowsAgree(RowAt(index), RowAt(index + 1))
  {
  }

  lemma RowsFrom56(index: nat)
    requires 56 <= index < 64
    ensures RowPlaced(RowAt(index), Exp10(index))
    ensures RowsAgree(RowAt(index), RowAt(index + 1))
  {
  }

  lemma RowsFrom64(index: nat)
    requires 64 <= index < 72
    ensures RowPlaced(RowAt(index), Exp10(index))
    ensures RowsAgree(RowAt(index), RowAt(index + 1))
  {
  }

  lemma RowsFrom72(index: nat)
    requires 72 <= index < 80
    ensures RowPlaced(RowAt(index), Exp10(index))
    ensures RowsAgree(RowAt(index), RowAt(index + 1))
  {
  }

  lemma RowsFrom80(index: nat)
    requires 80 <= index < 87
    ensures RowPlaced(RowAt(index), Exp10(index))
    ensures index + 1 < ROWS ==> RowsAgree(RowAt(index), RowAt(index + 1))
  {
  }

  lemma Rows(index: nat)
    requires index < ROWS
    ensures RowPlaced(RowAt(index), Exp10(index))
    ensures index + 1 < ROWS ==> RowsAgree(RowAt(index), RowAt(index + 1))
  {
    if index < 8 { RowsFrom0(index); }
    else if index < 16 { RowsFrom8(index); }
    else if index < 24 { RowsFrom16(index); }
    else if index < 32 { RowsFrom24(index); }
    else if index < 40 { RowsFrom32(index); }
    else if index < 48 { RowsFrom40(index); }
    else if index < 56 { RowsFrom48(index); }
    else if index < 64 { RowsFrom56(index); }
    else if index < 72 { RowsFrom64(index); }
    else if index < 80 { RowsFrom72(index); }
    else { RowsFrom80(index); }
  }

  // y is a million times num / den, up to w units of 2^-62 of it.
  ghost predicate Approximates(y: int, num: nat, den: nat, w: nat) {
    Abs(y * den - 1_000_000 * num) * 0x4000_0000_0000_0000 <= w * num
  }

  // From one power to another that is p / q times as large.
  lemma NextPower(y: int, num: nat, den: nat, y': int, num': nat, den': nat, p: nat, q: nat, w: nat)
    requires num > 0 && den > 0 && num' > 0 && den' > 0 && q > 0 && p >= 0x400_0000
    requires p * num * den' == q * num' * den
    requires Approximates(y, num, den, w) && 0x8000_0000_0000_0000 * den <= num
    requires -100_000_000 <= q * y' - p * y <= 100_000_000
    ensures Approximates(y', num', den', w + 1)
  {
    var error, error', gap := y * den - 1_000_000 * num, y' * den' - 1_000_000 * num', q * y' - p * y;
    NextError(y, num, den, y', num', den', p, q);
    var step := gap * den + p * error;
    StepBound(gap, den, num, p, error, w);
    MulPositive(q, den);
    assert error' * (q * den) == den' * step;
    AbsProduct(error', q * den, den', step);
    MulLe(Abs(step) * 0x4000_0000_0000_0000, (w + 1) * (p * num), den');
    CommonFactors(Abs(error'), q, den, Abs(step), den', w + 1, p, num, num');
    MulCancelLe(Abs(error') * 0x4000_0000_0000_0000, (w + 1) * num', q * den);
  }

  lemma AbsProduct(a: int, b: nat, c: nat, d: int)
    requires a * b == c * d
    ensures Abs(a) * b == c * Abs(d)
  {
    if a < 0 {
      MulDistribute(0, a, b);
      MulLe(a, 0, b);
    } else {
      MulLe(0, a, b);
    }
    if d < 0 {
      MulLe(d, 0, c);
    } else {
      MulLe(0, d, c);
    }
  }

  lemma NextError(y: int, num: int, den: int, y': int, num': int, den': int, p: int, q: int)
    requires p * num * den' == q * num' * den
    ensures (y' * den' - 1_000_000 * num') * (q * den) == den' * ((q * y' - p * y) * den + p * (y * den - 1_000_000 * num))
  {
    calc {
      (y' * den' - 1_000_000 * num') * (q * den);
      { MulDistribute(y' * den', 1_000_000 * num', q * den); }
      y' * den' * (q * den) - 1_000_000 * num' * (q * den);
      { MulAssoc(y' * den', q, den); Swap(y', den', q); MulAssoc(1_000_000 * num', q, den); MulAssoc(1_000_000, num', q); MulAssoc(1_000_000, num' * q, den); }
      q * y' * den' * den - 1_000_000 * (q * num' * den);
      q * y' * den' * den - 1_000_000 * (p * num * den');
      { Swap(q * y', den', den); MulDistribute(q * y' * den, 1_000_000 * (p * num), den'); MulAssoc(1_000_000, p * num, den'); }
      den' * (q * y' * den - 1_000_000 * (p * num));
      { MulDistribute(q * y', p * y, den); MulAssoc(p, y, den); MulAssoc(p, 1_000_000, num); MulDistribute(y * den, 1_000_000 * num, p); }
      den' * ((q * y' - p * y) * den + p * (y * den - 1_000_000 * num));
    }
  }

  lemma StepBound(gap: int, den: nat, num: nat, p: nat, error: int, w: nat)
    requires p >= 0x400_0000 && -100_000_000 <= gap <= 100_000_000
    requires 0x8000_0000_0000_0000 * den <= num && Abs(error) * 0x4000_0000_0000_0000 <= w * num
    ensures Abs(gap * den + p * error) * 0x4000_0000_0000_0000 <= (w + 1) * (p * num)
  {
    Magnitude(gap, 2 * p, den);
    Magnitude(error, Abs(error), p);
    assert error * p == p * error && num * p == p * num && Abs(error) * p == p * Abs(error);
    MulAssoc(2, p, den);
    MulLe(0x8000_0000_0000_0000 * den, num, p);
    MulAssoc(0x8000_0000_0000_0000, den, p);
    MulLe(Abs(error) * 0x4000_0000_0000_0000, w * num, p);
    Swap(Abs(error), 0x4000_0000_0000_0000, p);
    MulAssoc(w, num, p);
    MulDistribute(w, 1, p * num);
  }

  lemma Magnitude(a: int, b: int, c: nat)
    requires 0 - b <= a <= b
    ensures 0 - b * c <= a * c <= b * c
  {
    MulLe(a, b, c);
    MulLe(0 - b, a, c);
    MulDistribute(0, b, c);
  }

  lemma CommonFactors(error': int, q: int, den: int, step: int, den': int, w: int, p: int, num: int, num': int)
    requires error' * (q * den) == den' * step && p * num * den' == q * num' * den
    requires step * 0x4000_0000_0000_0000 * den' <= w * (p * num) * den'
    ensures error' * 0x4000_0000_0000_0000 * (q * den) <= w * num' * (q * den)
  {
    MulAssoc(w, p * num, den');
    MulAssoc(w, num', q * den);
    Swap(q, num', den);
    MulAssoc(num', q, den);
  }

  // 10^exp10 / 2^e as a fraction: Den(e, exp10) / Num(1, e, exp10). Raising the
  // exponents multiplies it by a power of ten and divides it by a power of two.
  lemma RowRatio(e: int, k: int, e': int, k': int)
    requires e <= e' && k <= k'
    ensures Pow(10, k' - k) * Den(e, k) * Num(1, e', k') == Pow(2, e' - e) * Den(e', k') * Num(1, e, k)
  {
    Halves(2, e, e');
    Halves(10, k, k');
    FourFactors(Pow(2, Negative(e)), Pow(10, Positive(k)), Pow(2, Positive(e')), Pow(10, Negative(k')),
                Pow(2, Negative(e')), Pow(10, Positive(k')), Pow(2, Positive(e)), Pow(10, Negative(k)), Pow(10, k' - k), Pow(2, e' - e));
  }

  function Positive(x: int): nat {
    if x >= 0 then x else 0
  }

  function Negative(x: int): nat {
    if x < 0 then -x else 0
  }

  lemma Halves(b: nat, m: int, n: int)
    requires m <= n
    ensures Pow(b, Negative(m)) * Pow(b, Positive(n)) == Pow(b, n - m) * (Pow(b, Negative(n)) * Pow(b, Positive(m)))
  {
    if m >= 0 {
      PowAdd(b, n - m, m);
    } else if n >= 0 {
      PowAdd(b, -m, n);
    } else {
      PowAdd(b, n - m, -n);
    }
  }

  lemma FourFactors(a: int, b: int, c: int, d: int, a': int, b': int, c': int, d': int, p: int, q: int)
    requires a * c == q * (a' * c') && d' * b' == p * (d * b)
    ensures p * (a * b) * (1 * c * d) == q * (a' * b') * (1 * c' * d')
  {
    calc {
      p * (a * b) * (c * d);
      { MulAssoc(p, a * b, c * d); Interchange(a, b, c, d); }
      p * (a * c * (b * d));
      p * (q * (a' * c') * (d * b));
      { Swap3(p, q * (a' * c'), d * b); }
      q * (a' * c') * (p * (d * b));
      q * (a' * c') * (b' * d');
      { MulAssoc(q, a' * c', b' * d'); Interchange(a', b', c', d'); MulAssoc(q, a' * b', c' * d'); }
      q * (a' * b') * (c' * d');
    }
  }

  lemma Interchange(a: int, b: int, c: int, d: int)
    ensures a * b * (c * d) == a * c * (b * d)
  {
    MulAssoc(a * b, c, d);
    Swap(a, b, c);
    MulAssoc(a * c, b, d);
  }

  lemma Swap3(a: int, b: int, c: int)
    ensures a * (b * c) == b * (a * c)
  {
    MulAssoc(a, b, c);
    MulAssoc(b, a, c);
  }

  // The row stands for 10^exp10, but for w units of 2^-62.
  ghost predicate RowNear(row: Row, exp10: int, w: nat) {
    Approximates(1_000_000 * row.f - row.millionths, Den(row.e, exp10), Num(1, row.e, exp10), w)
  }

  lemma ExactRow()
    ensures RowNear(ROWS_40[4], 4, 0)
  {
    Multipliers();
    PowAdd(2, 26, 24);
    PowAdd(2, 12, 12);
    assert Pow(2, 12) == 4096 && Pow(10, 4) == 10_000;
    assert Den(-50, 4) == Pow(2, 50) * Pow(10, 4) && Num(1, -50, 4) == 1;
  }

  // A row is far enough above 2^63 for its rounding to matter little.
  lemma RowAbove(row: Row, exp10: int, w: nat)
    requires RowPlaced(row, exp10) && w <= ROWS && RowNear(row, exp10, w)
    ensures 0x8000_0000_0000_0000 * Num(1, row.e, exp10) <= Den(row.e, exp10) <= 0x1_0000_1000_0000_0000 * Num(1, row.e, exp10)
    ensures Num(1, row.e, exp10) > 0
  {
    PowPositive(2, Positive(row.e));
    PowPositive(10, Negative(exp10));
    MulPositive(Pow(2, Positive(row.e)), Pow(10, Negative(exp10)));
    Above(1_000_000 * row.f - row.millionths, Den(row.e, exp10), Num(1, row.e, exp10), w);
  }

  lemma Above(y: int, num: nat, den: nat, w: nat)
    requires w <= ROWS && Approximates(y, num, den, w) && 1_000_000 * 0x8000_0FFF_0000_0000 <= y <= 1_000_000 * 0x1_0000_0001_0000_0000
    ensures 0x8000_0000_0000_0000 * den <= num <= 0x1_0000_1000_0000_0000 * den
  {
    MulLe(w, ROWS, num);
    MulLe(1_000_000 * 0x8000_0FFF_0000_0000, y, den);
    MulLe(y, 1_000_000 * 0x1_0000_0001_0000_0000, den);
  }

  lemma RowUp(row: Row, next: Row, k: int, w: nat)
    requires RowPlaced(row, k) && RowsAgree(row, next) && w <= ROWS && RowNear(row, k, w)
    ensures RowNear(next, k + 8, w + 1)
  {
    RowAbove(row, k, w);
    RowRatio(row.e, k, next.e, k + 8);
    Multipliers();
    NumPositive(next.e, k + 8);
    NextPower(1_000_000 * row.f - row.millionths, Den(row.e, k), Num(1, row.e, k),
              1_000_000 * next.f - next.millionths, Den(next.e, k + 8), Num(1, next.e, k + 8), 100_000_000, Pow(2, next.e - row.e), w);
  }

  lemma RowDown(row: Row, next: Row, k: int, w: nat)
    requires RowPlaced(next, k + 8) && RowsAgree(row, next) && w <= ROWS && RowNear(next, k + 8, w)
    ensures RowNear(row, k, w + 1)
  {
    RowAbove(next, k + 8, w);
    RowRatio(row.e, k, next.e, k + 8);
    Multipliers();
    NumPositive(row.e, k);
    NextPower(1_000_000 * next.f - next.millionths, Den(next.e, k + 8), Num(1, next.e, k + 8),
              1_000_000 * row.f - row.millionths, Den(row.e, k), Num(1, row.e, k), Pow(2, next.e - row.e), 100_000_000, w);
  }

  lemma NumPositive(e: int, k: int)
    ensures Num(1, e, k) > 0
  {
    PowPositive(2, Positive(e));
    PowPositive(10, Negative(k));
    MulPositive(Pow(2, Positive(e)), Pow(10, Negative(k)));
  }

  lemma Multipliers()
    ensures Pow(10, 8) == 100_000_000 && Pow(2, 26) == 0x400_0000 && Pow(2, 27) == 0x800_0000
  {
    PowAdd(2, 13, 13);
    assert Pow(2, 13) == 0x2000 && Pow(2, 27) == 2 * Pow(2, 26);
  }

  // Every row, from the exact one for 10^4 upwards and downwards.
  lemma {:induction false} EveryRow(index: nat)
    requires index < ROWS
    ensures RowNear(RowAt(index), Exp10(index), Abs(index - 44))
    decreases Abs(index - 44)
  {
    if index == 44 {
      ExactRow();
    } else if index > 44 {
      EveryRow(index - 1);
      OneUp(index - 1, index - 45);
    } else {
      EveryRow(index + 1);
      OneDown(index, 43 - index);
    }
  }

  lemma OneUp(index: nat, w: nat)
    requires index + 1 < ROWS && w <= ROWS && RowNear(RowAt(index), Exp10(index), w)
    ensures RowNear(RowAt(index + 1), Exp10(index + 1), w + 1)
  {
    Rows(index);
    RowUp(RowAt(index), RowAt(index + 1), Exp10(index), w);
  }

  lemma OneDown(index: nat, w: nat)
    requires index + 1 < ROWS && w <= ROWS && RowNear(RowAt(index + 1), Exp10(index + 1), w)
    ensures RowNear(RowAt(index), Exp10(index), w + 1)
  {
    Rows(index);
    Rows(index + 1);
    RowDown(RowAt(index), RowAt(index + 1), Exp10(index), w);
  }

  // Each cached power is right to half a unit of its last binary place.
  ghost predicate HalfUnit(p: CachedPower) {
    2 * Abs(Num(p.f, p.e, p.exp10) - Den(p.e, p.exp10)) <= Num(1, p.e, p.exp10)
  }

  lemma RowIsHalfUnit(index: nat)
    requires index < ROWS
    ensures HalfUnit(CachedPower(RowAt(index).f, RowAt(index).e, Exp10(index)))
  {
    var row, exp10 := RowAt(index), Exp10(index);
    Rows(index);
    EveryRow(index);
    RowAbove(row, exp10, Abs(index - 44));
    NumScale(row.f, row.e, exp10);
    MillionthsHalve(row.f, row.millionths, Den(row.e, exp10), Num(1, row.e, exp10), Abs(index - 44));
  }

  lemma NumScale(f: nat, e: int, k: int)
    ensures Num(f, e, k) == f * Num(1, e, k)
  {
    MulAssoc(f, Pow(2, Positive(e)), Pow(10, Negative(k)));
  }

  lemma MillionthsHalve(f: nat, millionths: int, num: nat, den: nat, w: nat)
    requires w <= 44 && -498_000 <= millionths <= 498_000 && num <= 0x1_0000_1000_0000_0000 * den
    requires Approximates(1_000_000 * f - millionths, num, den, w)
    ensures 2 * Abs(f * den - num) <= den
  {
    MulDistribute(1_000_000 * f, millionths, den);
    MulAssoc(1_000_000, f, den);
    Magnitude(millionths, 498_000, den);
    MulLe(w, 44, num);
  }

  // Division as the source does it: towards zero.
  function TruncatedDiv(a: int, b: nat): int
    requires b > 0
  {
    if a >= 0 then a / b else -(-a / b)
  }

  // The row in which get_cached_power looks.
  function Index(minExponent: int): int {
    var exp10 := ((minExponent + 63) * LOG10_2 + (U32 - 1)) / U32;
    TruncatedDiv(exp10 + 347, 8) + 1
  }

  // The exponent is where the source's comment promises it, except near the
  // lower end of the table.
  function GetCachedPower(minExponent: int): (p: CachedPower)
    requires 0 <= Index(minExponent) < ROWS
    ensures HalfUnit(p) && U64 / 2 <= p.f < U64 && -348 <= p.exp10 <= 340
    ensures minExponent <= p.e <= minExponent + 28 <==> minExponent >= -1221 || -1248 <= minExponent <= -1243
  {
    var index := Index(minExponent);
    Rows(index);
    RowIsHalfUnit(index);
    IndexFits(minExponent, RowAt(index), Exp10(index));
    CachedPower(RowAt(index).f, RowAt(index).e, Exp10(index))
  }

  lemma IndexFits(minExponent: int, row: Row, exp10: int)
    requires 0 <= Index(minExponent) < ROWS && row == RowAt(Index(minExponent)) && exp10 == Exp10(Index(minExponent))
    requires RowPlaced(row, exp10)
    ensures minExponent <= row.e <= minExponent + 28 <==> minExponent >= -1221 || -1248 <= minExponent <= -1243
  {
    var product := (minExponent + 63) * LOG10_2;
    var exp := (product + (U32 - 1)) / U32;
    assert (exp - 1) * U32 < product <= exp * U32;
    if exp + 347 < 0 {
      assert row == if exp + 347 > -8 then ROWS_0[1] else ROWS_0[0];
    }
  }

  // For the exponents of doubles the table is never left.
  lemma IndexInTable(minExponent: int)
    requires -1221 <= minExponent <= 1066
    ensures 0 <= Index(minExponent) < ROWS
  {
  }

  // r * 2^64 is within half of 2^64 of the product.
  predicate RoundsTo(product: nat, r: nat) {
    2 * Abs(product - r * U64) <= U64
  }

  // Rounded half up to a multiple of 2^64.
  function HighHalf(product: nat): (r: nat)
    ensures RoundsTo(product, r)
  {
    (product + U64 / 2) / U64
  }

  // The product of two 64-bit significands, rounded to its upper 64 bits.
  function RoundedProduct(lhs: nat, rhs: nat): (r: nat)
    requires lhs < U64 && rhs < U64
    ensures r < U64 && RoundsTo(lhs * rhs, r)
    ensures lhs >= U64 / 2 && rhs >= U64 / 2 ==> r >= U64 / 4
  {
    ProductBounds(lhs, rhs);
    HighHalf(lhs * rhs)
  }

  lemma ProductBounds(lhs: nat, rhs: nat)
    requires lhs < U64 && rhs < U64
    ensures 0 <= lhs * rhs <= (U64 - 1) * (U64 - 1)
    ensures lhs >= U64 / 2 && rhs >= U64 / 2 ==> lhs * rhs >= U64 / 2 * (U64 / 2)
  {
    MulLe(0, lhs, rhs);
    MulLe(lhs, U64 - 1, rhs);
    if lhs >= U64 / 2 && rhs >= U64 / 2 {
      MulLe(U64 / 2, lhs, rhs);
    }
  }

  // With 128-bit integers.
  method Multiply(lhs: nat, rhs: nat) returns (f: nat)
    requires lhs < U64 && rhs < U64
    ensures f == RoundedProduct(lhs, rhs)
  {
    ProductBounds(lhs, rhs);
    f := RoundWide(lhs * rhs);
  }

  method RoundWide(product: nat) returns (f: nat)
    ensures f == HighHalf(product)
  {
    f := product / U64;
    if product % U64 / (U64 / 2) % 2 != 0 {
      f := f + 1;
    }
  }

  // With the 32-bit halves; no sum exceeds 64 bits.
  method MultiplyParts(lhs: nat, rhs: nat) returns (f: nat)
    requires lhs < U64 && rhs < U64
    ensures f == RoundedProduct(lhs, rhs)
  {
    var a, b := lhs / U32, lhs % U32;
    var c, d := rhs / U32, rhs % U32;
    PartBelow(a, c);
    PartBelow(b, c);
    PartBelow(a, d);
    PartBelow(b, d);
    var ac, bc, ad, bd := a * c, b * c, a * d, b * d;
    assert ac < U64 && bc < U64 && ad < U64 && bd < U64;
    var mid := bd / U32 + ad % U32 + bc % U32 + U32 / 2;
    assert mid < U64;
    f := ac + ad / U32 + bc / U32 + mid / U32;
    PartsOfProduct(a, b, c, d);
    assert lhs == a * U32 + b && rhs == c * U32 + d;
    PartsRound(ac, ad, bc, bd, lhs * rhs);
    assert f < U64;
  }

  lemma PartBelow(x: nat, y: nat)
    requires x < U32 && y < U32
    ensures 0 <= x * y <= (U32 - 1) * (U32 - 1)
  {
    MulLe(x, U32 - 1, y);
    MulLe(0, x, y);
  }

  lemma PartsOfProduct(a: int, b: int, c: int, d: int)
    ensures (a * U32 + b) * (c * U32 + d) == a * c * U64 + (a * d + b * c) * U32 + b * d
  {
    MulDistribute(a * U32, b, c * U32 + d);
    Swap(a, U32, c);
    Swap(a, U32, d);
    MulAssoc(b, c, U32);
    MulAssoc(a * U32, c, U32);
  }

  lemma PartsRound(ac: nat, ad: nat, bc: nat, bd: nat, product: nat)
    requires product == ac * U64 + (ad + bc) * U32 + bd
    ensures (product + U64 / 2) / U64 == ac + ad / U32 + bc / U32 + (bd / U32 + ad % U32 + bc % U32 + U32 / 2) / U32
  {
    var mid := bd / U32 + ad % U32 + bc % U32 + U32 / 2;
    DivModUnique(product + U64 / 2, U64, ac + ad / U32 + bc / U32 + mid / U32, mid % U32 * U32 + bd % U32);
  }

  // How far a significand is shifted to become 64 bits long.
  function Shift(f: nat): (n: nat)
    requires 0 < f < 0x20_0000_0000_0000
    ensures 11 <= n <= 63 && U64 / 2 <= f * Pow(2, n) < U64
    decreases 0x20_0000_0000_0000 - f
  {
    if f < 0x10_0000_0000_0000 then
      var n := Shift(2 * f) + 1;
      assert 2 * f * Pow(2, n - 1) == f * Pow(2, n) by {
        MulAssoc(f, 2, Pow(2, n - 1));
      }
      ShiftBound(f, n);
      n
    else
      assert Pow(2, 11) == 2048;
      11
  }

  lemma ShiftBound(f: nat, n: nat)
    requires f > 0 && f * Pow(2, n) < U64
    ensures n <= 63
  {
    if n > 63 {
      PowersOfTwo();
      PowMonotone(2, 64, n);
      PowAdd(2, 32, 32);
      MulLe(1, f, Pow(2, n));
    }
  }

  lemma OneShift(f: nat, n: nat)
    ensures f * Pow(2, n + 1) == f * Pow(2, n) * 2
  {
    MulAssoc(f, Pow(2, n), 2);
  }

  lemma ElevenShifts(f: nat, n: nat)
    ensures f * Pow(2, n + 11) == f * Pow(2, n) * 2048
  {
    PowAdd(2, n, 11);
    assert Pow(2, 11) == 2048;
    MulAssoc(f, Pow(2, n), 2048);
  }

  // The value of a double with all 64 bits of the significand in use.
  method Normalize(f: nat, e: int) returns (f': nat, e': int)
    requires 0 < f < 0x20_0000_0000_0000
    ensures f' == f * Pow(2, Shift(f)) && e' == e - Shift(f)
  {
    f', e' := f, e;
    while f' / 0x10_0000_0000_0000 % 2 == 0
      invariant 0 < f' < 0x20_0000_0000_0000
      invariant e - e' >= 0 && f' == f * Pow(2, e - e') && Shift(f) == e - e' + Shift(f')
      decreases 0x20_0000_0000_0000 - f'
    {
      OneShift(f, e - e');
      f', e' := f' * 2, e' - 1;
    }
    ElevenShifts(f, e - e');
    f', e' := f' * 2048, e' - 11;
  }

  // The value times 10^exp10 in units of 2^-s, rounded to an integer.
  datatype ScaledValue = ScaledValue(f: nat, s: nat, exp10: int)

  function Scaled(f: nat, e: int): (v: ScaledValue)
    requires IsDouble(f, e)
    ensures 32 <= v.s <= 60 && Pow(2, v.s) <= v.f < U64 && -348 <= v.exp10 <= 340
  {
    ScaledNormalised(f * Pow(2, Shift(f)), e - Shift(f))
  }

  // It depends on the value alone: a float can be taken with its own, shorter
  // significand.
  lemma ScaledByValue(f: nat, e: int, k: nat, g: nat)
    requires g == f * Pow(2, k) && IsDouble(f, e) && IsDouble(g, e - k)
    ensures Scaled(g, e - k) == Scaled(f, e)
  {
    hide Shift, Scaled, ScaledNormalised, Pow;
    ShiftByValue(f, k, g);
    var n := Shift(g);
    PowAdd(2, k, n);
    MulAssoc(f, Pow(2, k), Pow(2, n));
    ScaledShifted(g, e - k, n, g * Pow(2, n));
    ScaledShifted(f, e, k + n, g * Pow(2, n));
  }

  lemma ScaledShifted(f: nat, e: int, n: nat, significand: nat)
    requires IsDouble(f, e) && n == Shift(f) && significand == f * Pow(2, n)
    ensures U64 / 2 <= significand < U64 && Scaled(f, e) == ScaledNormalised(significand, e - n)
  {
    hide ScaledNormalised, Pow;
  }

  lemma {:induction false} ShiftByValue(f: nat, k: nat, g: nat)
    requires 0 < f && g == f * Pow(2, k) < 0x20_0000_0000_0000
    ensures f <= g && Shift(f) == k + Shift(g)
  {
    if k == 0 {
      assert Pow(2, 0) == 1;
    } else {
      PowPositive(2, k - 1);
      MulPositive(f, Pow(2, k - 1));
      OneShift(f, k - 1);
      hide Pow;
      ShiftByValue(f, k - 1, f * Pow(2, k - 1));
    }
  }

  function ScaledNormalised(significand: nat, exponent: int): (v: ScaledValue)
    requires U64 / 2 <= significand < U64 && -1137 <= exponent <= 960
    ensures 32 <= v.s <= 60 && Pow(2, v.s) <= v.f < U64 && -348 <= v.exp10 <= 340
  {
    var minExponent := -60 - (exponent + 64);
    IndexInTable(minExponent);
    var cached := GetCachedPower(minExponent);
    var product := RoundedProduct(significand, cached.f);
    OneBelowProduct(0 - (exponent + cached.e + 64), product);
    ScaledValue(product, 0 - (exponent + cached.e + 64), cached.exp10)
  }

  // The steps that format_float takes to get there.
  method ScaleUp(f: nat, e: int) returns (scaled: nat, s: nat, exp10: int)
    requires IsDouble(f, e)
    ensures ScaledValue(scaled, s, exp10) == Scaled(f, e)
  {
    hide ScaledNormalised, Shift, Pow;
    var significand, exponent := Normalize(f, e);
    scaled, s, exp10 := ScaleNormalized(significand, exponent);
  }

  method ScaleNormalized(significand: nat, exponent: int) returns (scaled: nat, s: nat, exp10: int)
    requires U64 / 2 <= significand < U64 && -1137 <= exponent <= 960
    ensures ScaledValue(scaled, s, exp10) == ScaledNormalised(significand, exponent)
  {
    IndexInTable(-60 - (exponent + 64));
    var cached := GetCachedPower(-60 - (exponent + 64));
    scaled := Multiply(significand, cached.f);
    s, exp10 := 0 - (exponent + cached.e + 64), cached.exp10;
  }

  lemma OneBelowProduct(s: int, product: nat)
    requires 0 <= s <= 60 && product >= U64 / 4
    ensures Pow(2, s) <= product
  {
    PowMonotone(2, s, 60);
    PowersOfTwo();
    assert Pow(2, 60) == 0x1000_0000_0000_0000;
  }

  // The scaled value of every double is right to less than one unit.
  lemma ScaledIsClose(f: nat, e: int)
    requires IsDouble(f, e)
    ensures var v := Scaled(f, e); ErrorBelowOne(f, e, v.exp10, v.f, Pow(2, v.s))
  {
    hide ErrorBelowOne, HalfUnit, RoundsTo, HighHalf, Index, Shift, Pow;
    var significand, exponent := f * Pow(2, Shift(f)), e - Shift(f);
    IndexInTable(-60 - (exponent + 64));
    var cached := GetCachedPower(-60 - (exponent + 64));
    ProductError(f, e, Shift(f), significand, cached, RoundedProduct(significand, cached.f), 0 - (exponent + cached.e + 64));
  }

  // The rounding of the cached power and that of the product add up to less
  // than one unit.
  lemma ProductError(f: nat, e: int, n: nat, normalised: nat, p: CachedPower, product: nat, s: nat)
    requires HalfUnit(p) && normalised == f * Pow(2, n) && normalised < U64 && s == n - e - p.e - 64
    requires RoundsTo(normalised * p.f, product)
    ensures ErrorBelowOne(f, e, p.exp10, product, Pow(2, s))
  {
    NumScale(p.f, p.e, p.exp10);
    NumPositive(p.e, p.exp10);
    SameScale(f, e, n, p.e, p.exp10, s);
    ErrorsAdd(normalised, p.f, Den(p.e, p.exp10), Num(1, p.e, p.exp10), product, Num(f, e, -p.exp10) * Pow(2, s), Den(e, -p.exp10));
  }

  lemma ErrorsAdd(f: nat, g: nat, num: nat, den: nat, product: nat, x: int, d: nat)
    requires f < U64 && den > 0 && d > 0 && 2 * Abs(g * den - num) <= den && RoundsTo(f * g, product)
    requires x * (U64 * den) == f * num * d
    ensures Abs(x - product * d) < d
  {
    TwoRoundings(f, g, num, den, product);
    MulLe(0, f, num);
    CancelScale(x, U64 * den, f * num, d, product);
  }

  lemma TwoRoundings(f: nat, g: nat, num: nat, den: nat, product: nat)
    requires f < U64 && den > 0 && 2 * Abs(g * den - num) <= den && RoundsTo(f * g, product)
    ensures Abs(f * num - product * (U64 * den)) < U64 * den
  {
    MulDistribute(g * den, num, f);
    Magnitude(2 * (g * den - num), den, f);
    MulLt(f, U64, den);
    Magnitude(2 * (f * g - product * U64), U64, den);
    MulDistribute(f * g, product * U64, den);
    MulAssoc(f, g, den);
    MulAssoc(product, U64, den);
    assert g * den * f == f * (g * den) && num * f == f * num && den * f == f * den;
    MulAssoc(2, g * den - num, f);
    MulAssoc(2, f * g - product * U64, den);
  }

  lemma CancelScale(x: int, y: nat, z: nat, d: nat, product: nat)
    requires y > 0 && d > 0 && x * y == z * d && Abs(z - product * y) < y
    ensures Abs(x - product * d) < d
  {
    MulLt(z - product * y, y, d);
    MulLt(product * y - z, y, d);
    MulDistribute(z, product * y, d);
    MulDistribute(product * y, z, d);
    MulDistribute(x, product * d, y);
    MulDistribute(product * d, x, y);
    Swap(product, y, d);
    MulCancelLt(x - product * d, d, y);
    MulCancelLt(product * d - x, d, y);
  }

  lemma SameScale(f: nat, e: int, n: nat, e': int, k: int, s: nat)
    requires s == n - e - e' - 64
    ensures Num(f, e, -k) * Pow(2, s) * (U64 * Num(1, e', k)) == f * Pow(2, n) * Den(e', k) * Den(e, -k)
  {
    TwosAgree(e, n, e', s);
    SixFactors(f, Pow(2, Positive(e)), Pow(10, Positive(k)), Pow(2, s), Pow(2, Positive(e')), Pow(10, Negative(k)),
               Pow(2, n), Pow(2, Negative(e')), Pow(2, Negative(e)));
  }

  lemma TwosAgree(e: int, n: nat, e': int, s: nat)
    requires s == n - e - e' - 64
    ensures Pow(2, Positive(e)) * Pow(2, s) * (U64 * Pow(2, Positive(e'))) == Pow(2, n) * Pow(2, Negative(e')) * Pow(2, Negative(e))
  {
    hide Pow;
    WordPower();
    ThreePowers(Positive(e) + s, 64, Positive(e'));
    PowAdd(2, Positive(e), s);
    MulAssoc(Pow(2, Positive(e) + s), U64, Pow(2, Positive(e')));
    ThreePowers(n, Negative(e'), Negative(e));
    assert Positive(e) + s + 64 + Positive(e') == n + Negative(e') + Negative(e);
  }

  lemma ThreePowers(a: nat, b: nat, c: nat)
    ensures Pow(2, a) * Pow(2, b) * Pow(2, c) == Pow(2, a + b + c)
  {
    PowAdd(2, a, b);
    PowAdd(2, a + b, c);
  }

  lemma WordPower()
    ensures Pow(2, 64) == U64
  {
    PowersOfTwo();
    PowAdd(2, 32, 32);
  }

  lemma SixFactors(f: int, a: int, k: int, s: int, b: int, l: int, n: int, c: int, d: int)
    requires a * s * (U64 * b) == n * c * d
    ensures f * a * k * s * (U64 * (1 * b * l)) == f * n * (c * k) * (d * l)
  {
    calc {
      f * a * k * s * (U64 * (b * l));
      { Swap(f * a, k, s); MulAssoc(f, a, s); MulAssoc(U64, b, l); Interchange(f * (a * s), k, U64 * b, l); }
      f * (a * s) * (U64 * b) * (k * l);
      { MulAssoc(f, a * s, U64 * b); }
      f * (n * c * d) * (k * l);
      { MulAssoc(f, n * c, d); MulAssoc(f, n, c); Interchange(f * n * c, d, k, l); MulAssoc(f * n, c, k); }
      f * n * (c * k) * (d * l);
    }
  }
}
