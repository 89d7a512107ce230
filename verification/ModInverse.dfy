// Division by powers of five without dividing: multiplying by the inverse modulo
// 2^w gives a small number exactly for the multiples.
module ModInverse {
  import opened Words
  import opened Powers

  datatype Row = Row(inverse: nat, maxQuotient: nat)

  const ROWS_32: seq<Row> := [
    Row(0x00000001, 0xffffffff), Row(0xcccccccd, 0x33333333), Row(0xc28f5c29, 0x0a3d70a3),
    Row(0x26e978d5, 0x020c49ba), Row(0x3afb7e91, 0x0068db8b), Row(0x0bcbe61d, 0x0014f8b5),
    Row(0x68c26139, 0x000431bd), Row(0xae8d46a5, 0x0000d6bf), Row(0x22e90e21, 0x00002af3),
    Row(0x3a2e9c6d, 0x00000897), Row(0x3ed61f49, 0x000001b7)
  ]

  const ROWS_64: seq<Row> := [
    Row(0x0000000000000001, 0xffffffffffffffff), Row(0xcccccccccccccccd, 0x3333333333333333),
    Row(0x8f5c28f5c28f5c29, 0x0a3d70a3d70a3d70), Row(0x1cac083126e978d5, 0x020c49ba5e353f7c),
    Row(0xd288ce703afb7e91, 0x0068db8bac710cb2), Row(0x5d4e8fb00bcbe61d, 0x0014f8b588e368f0),
    Row(0x790fb65668c26139, 0x000431bde82d7b63), Row(0xe5032477ae8d46a5, 0x0000d6bf94d5e57a),
    Row(0xc767074b22e90e21, 0x00002af31dc46118), Row(0x8e47ce423a2e9c6d, 0x0000089705f4136b),
    Row(0x4fa7f60d3ed61f49, 0x000001b7cdfd9d7b), Row(0x0fee64690c913975, 0x00000057f5ff85e5),
    Row(0x3662e0e1cf503eb1, 0x000000119799812d), Row(0xa47a2cf9f6433fbd, 0x0000000384b84d09),
    Row(0x54186f653140a659, 0x00000000b424dc35), Row(0x7738164770402145, 0x0000000024075f3d),
    Row(0xe4a4d1417cd9a041, 0x000000000734aca5), Row(0xc75429d9e5c5200d, 0x000000000170ef54),
    Row(0xc1773b91fac10669, 0x000000000049c977), Row(0x26b172506559ce15, 0x00000000000ec1e4),
    Row(0xd489e3a9addec2d1, 0x000000000002f394), Row(0x90e860bb892c8d5d, 0x000000000000971d),
    Row(0x502e79bf1b6f4f79, 0x0000000000001e39), Row(0xdcd618596be30fe5, 0x000000000000060b)
  ]

  ghost predicate RowFits(row: Row, d: nat, m: nat)
    requires m > 0 && d > 0
  {
    (row.inverse * d) % m == 1 && row.maxQuotient == (m - 1) / d
  }

  // The test is right for every divisor d that has an inverse modulo m, and the
  // product it tests is the quotient.
  lemma InverseDecides(x: nat, d: nat, m: nat, row: Row)
    requires 1 < m && 0 < d && x < m && RowFits(row, d, m)
    ensures (x * row.inverse) % m <= row.maxQuotient <==> x % d == 0
    ensures x % d == 0 ==> (x * row.inverse) % m == x / d
  {
    if x % d == 0 {
      MultiplePasses(x, d, m, row);
    }
    if (x * row.inverse) % m <= row.maxQuotient {
      OnlyMultiplesPass(x, d, m, row);
    }
  }

  lemma MultiplePasses(x: nat, d: nat, m: nat, row: Row)
    requires 1 < m && 0 < d && x < m && RowFits(row, d, m) && x % d == 0
    ensures (x * row.inverse) % m == x / d <= row.maxQuotient
  {
    var q, c := x / d, (row.inverse * d) / m;
    assert row.inverse * d == c * m + 1;
    assert x == q * d;
    QuotientIsProduct(q, d, row.inverse, c, m);
    QuotientFits(q, d, m);
    MulLe(1, d, q);
    DivModUnique(x * row.inverse, m, q * c, q);
  }

  lemma OnlyMultiplesPass(x: nat, d: nat, m: nat, row: Row)
    requires 1 < m && 0 < d && x < m && RowFits(row, d, m) && (x * row.inverse) % m <= row.maxQuotient
    ensures x % d == 0
  {
    hide RowFits;
    var y: nat := (x * row.inverse) % m;
    RowQuotients(d, m, row);
    PassRecovers(x, d, m, row.inverse, (row.inverse * d) / m, (x * row.inverse) / m, y, row.maxQuotient);
  }

  lemma RowQuotients(d: nat, m: nat, row: Row)
    requires 1 < m && 0 < d && RowFits(row, d, m)
    ensures row.inverse * d == (row.inverse * d) / m * m + 1 && row.maxQuotient == (m - 1) / d
  {
  }

  lemma PassRecovers(x: nat, d: nat, m: nat, inverse: nat, c: int, k: int, y: nat, maxQuotient: nat)
    requires 1 < m && 0 < d && x < m && y <= maxQuotient == (m - 1) / d
    requires inverse * d == c * m + 1 && x * inverse == k * m + y
    ensures x % d == 0
  {
    QuotientRecovers(x, d, inverse, c, k, m, y);
    QuotientBelow(y, maxQuotient, d, m);
    SameResidue(x, y * d, x * c - k * d, m);
    DivModUnique(x, d, y, 0);
  }

  lemma QuotientBelow(y: nat, q: nat, d: nat, m: nat)
    requires 0 < d && 0 < m && y <= q == (m - 1) / d
    ensures 0 <= y * d < m
  {
    MulLe(y, q, d);
    MulLe(0, y, d);
  }

  lemma QuotientIsProduct(q: int, d: int, inverse: int, c: int, m: int)
    requires inverse * d == c * m + 1
    ensures (q * d) * inverse == (q * c) * m + q
  {
    calc {
      (q * d) * inverse;
      q * (inverse * d);
      q * (c * m + 1);
      (q * c) * m + q;
    }
  }

  lemma QuotientFits(q: nat, d: nat, m: nat)
    requires 0 < d && q * d < m
    ensures q <= (m - 1) / d
  {
    if (m - 1) / d < q {
      MulLe((m - 1) / d + 1, q, d);
      MulDistribute((m - 1) / d, 1, d);
    }
  }

  lemma QuotientRecovers(x: int, d: int, inverse: int, c: int, k: int, m: int, y: int)
    requires inverse * d == c * m + 1 && x * inverse == k * m + y
    ensures y * d == x + (x * c - k * d) * m
  {
    calc {
      y * d;
      (x * inverse - k * m) * d;
      { MulDistribute(x * inverse, k * m, d); }
      x * inverse * d - k * m * d;
      { MulAssoc(x, inverse, d); }
      x * (c * m + 1) - k * m * d;
      { MulDistribute(x * c, k * d, m); }
      x + (x * c - k * d) * m;
    }
  }

  lemma SameResidue(x: nat, y: nat, k: int, m: nat)
    requires x < m && y < m && y == x + k * m
    ensures x == y
  {
    if k > 0 {
      MulLe(1, k, m);
    } else if k < 0 {
      MulLe(k, -1, m);
    }
  }

  lemma PowersOfFive()
    ensures Pow(5, 0) == 1
    ensures Pow(5, 1) == 5
    ensures Pow(5, 2) == 25
    ensures Pow(5, 3) == 125
    ensures Pow(5, 4) == 625
    ensures Pow(5, 5) == 3125
    ensures Pow(5, 6) == 15625
    ensures Pow(5, 7) == 78125
    ensures Pow(5, 8) == 390625
    ensures Pow(5, 9) == 1953125
    ensures Pow(5, 10) == 9765625
    ensures Pow(5, 11) == 48828125
    ensures Pow(5, 12) == 244140625
    ensures Pow(5, 13) == 1220703125
    ensures Pow(5, 14) == 6103515625
    ensures Pow(5, 15) == 30517578125
    ensures Pow(5, 16) == 152587890625
    ensures Pow(5, 17) == 762939453125
    ensures Pow(5, 18) == 3814697265625
    ensures Pow(5, 19) == 19073486328125
    ensures Pow(5, 20) == 95367431640625
    ensures Pow(5, 21) == 476837158203125
    ensures Pow(5, 22) == 2384185791015625
    ensures Pow(5, 23) == 11920928955078125
  {
    assert Pow(5, 0) == 1;
    assert Pow(5, 1) == 5;
    assert Pow(5, 2) == 25;
    assert Pow(5, 3) == 125;
    assert Pow(5, 4) == 625;
    assert Pow(5, 5) == 3125;
    assert Pow(5, 6) == 15625;
    assert Pow(5, 7) == 78125;
    assert Pow(5, 8) == 390625;
    assert Pow(5, 9) == 1953125;
    assert Pow(5, 10) == 9765625;
    assert Pow(5, 11) == 48828125;
    assert Pow(5, 12) == 244140625;
    assert Pow(5, 13) == 1220703125;
    assert Pow(5, 14) == 6103515625;
    assert Pow(5, 15) == 30517578125;
    assert Pow(5, 16) == 152587890625;
    assert Pow(5, 17) == 762939453125;
    assert Pow(5, 18) == 3814697265625;
    assert Pow(5, 19) == 19073486328125;
    assert Pow(5, 20) == 95367431640625;
    assert Pow(5, 21) == 476837158203125;
    assert Pow(5, 22) == 2384185791015625;
    assert Pow(5, 23) == 11920928955078125;
  }

  lemma Rows32(e: nat)
    requires e <= 10
    ensures Pow(5, e) > 0 && RowFits(ROWS_32[e], Pow(5, e), U32)
  {
    PowersOfFive();
  }

  lemma Rows64(e: nat)
    requires e <= 23
    ensures Pow(5, e) > 0 && RowFits(ROWS_64[e], Pow(5, e), U64)
  {
    if e < 8 {
      FirstRows64(e);
    } else if e < 16 {
      MiddleRows64(e);
    } else {
      LastRows64(e);
    }
  }

  lemma FirstRows64(e: nat)
    requires e < 8
    ensures Pow(5, e) > 0 && RowFits(ROWS_64[e], Pow(5, e), U64)
  {
    PowersOfFive();
  }

  lemma MiddleRows64(e: nat)
    requires 8 <= e < 16
    ensures Pow(5, e) > 0 && RowFits(ROWS_64[e], Pow(5, e), U64)
  {
    PowersOfFive();
  }

  lemma LastRows64(e: nat)
    requires 16 <= e <= 23
    ensures Pow(5, e) > 0 && RowFits(ROWS_64[e], Pow(5, e), U64)
  {
    PowersOfFive();
  }

  function DivisibleByPowerOf5In32(x: nat, e: nat): (b: bool)
    requires x < U32 && e <= 10
    ensures Pow(5, e) > 0 && (b <==> x % Pow(5, e) == 0)
  {
    Rows32(e);
    InverseDecides(x, Pow(5, e), U32, ROWS_32[e]);
    (x * ROWS_32[e].inverse) % U32 <= ROWS_32[e].maxQuotient
  }

  function DivisibleByPowerOf5In64(x: nat, e: nat): (b: bool)
    requires x < U64 && e <= 23
    ensures Pow(5, e) > 0 && (b <==> x % Pow(5, e) == 0)
  {
    Rows64(e);
    InverseDecides(x, Pow(5, e), U64, ROWS_64[e]);
    (x * ROWS_64[e].inverse) % U64 <= ROWS_64[e].maxQuotient
  }
}
