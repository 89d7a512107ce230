// Printing an unsigned integer into a buffer and reading a nonnegative int back.
module DecimalText {
  import opened Words
  import opened Powers
  import opened Digits
  import opened CountDigitsModel

  // The decimal numeral of n.
  function Decimal(n: nat): (s: string) {
    if n < 10 then [DigitChar(n)] else Decimal(n / 10) + [DigitChar(n % 10)]
  }

  lemma {:induction false} DecimalSpells(n: nat)
    ensures AllDigits(Decimal(n)) && Number(Decimal(n)) == n && HasDigits(n, |Decimal(n)|)
  {
    if n < 10 {
      NumberAppend([], DigitChar(n));
      assert [] + [DigitChar(n)] == Decimal(n);
      assert Pow(10, 1) == 10;
    } else {
      DecimalSpells(n / 10);
      NumberAppend(Decimal(n / 10), DigitChar(n % 10));
      HasDigitsShift(n, |Decimal(n / 10)|);
    }
  }

  // All three ways to count give the length of the numeral.
  lemma CountsAgree(n: nat, count: nat)
    requires n < Pow(2, 64) && HasDigits(n, count)
    ensures count == |Decimal(n)|
    ensures n < U32 ==> count == CountDigits32(n)
    ensures n < U64 ==> count == CountDigits64(n)
  {
    DecimalSpells(n);
    HasDigitsUnique(n, count, |Decimal(n)|);
    if n < U32 {
      HasDigitsUnique(n, count, CountDigits32(n));
    }
    if n < U64 {
      HasDigitsUnique(n, count, CountDigits64(n));
    }
  }

  // Row v of the table of all two-digit strings.
  function TwoDigits(v: nat): (s: string)
    requires v < 100
    ensures |s| == 2
  {
    [DigitChar(v / 10), DigitChar(v % 10)]
  }

  lemma DecimalByTwo(n: nat)
    requires n >= 10
    ensures n < 100 ==> Decimal(n) == TwoDigits(n)
    ensures n >= 100 ==> Decimal(n) == Decimal(n / 100) + TwoDigits(n % 100)
  {
    if n >= 100 {
      assert n / 10 / 10 == n / 100 && n / 10 % 10 == n % 100 / 10 && n % 10 == n % 100 % 10;
    }
  }

  // `text` stands at p in what was `before`.
  ghost predicate Written(before: string, now: string, p: nat, text: string) {
    && p + |text| <= |before| == |now|
    && now[..p] == before[..p] && now[p..p + |text|] == text && now[p + |text|..] == before[p + |text|..]
  }

  lemma WriteBefore(before: string, now: string, p: nat, text: string, c: char)
    requires Written(before, now, p, text) && p > 0
    ensures Written(before, now[p - 1 := c], p - 1, [c] + text)
  {
    var now' := now[p - 1 := c];
    assert now'[p - 1..p + |text|] == [c] + now[p..p + |text|];
    assert now'[..p - 1] == now[..p][..p - 1] && before[..p - 1] == before[..p][..p - 1];
    assert now'[p + |text|..] == now[p + |text|..];
  }

  // `text` is the end of the numeral of `value`, and v is what it leaves out.
  ghost predicate Split(value: nat, v: nat, text: string) {
    Decimal(value) == Decimal(v) + text
  }

  lemma SplitTwo(value: nat, v: nat, text: string)
    requires Split(value, v, text) && v >= 10
    ensures |text| + 2 <= |Decimal(value)|
    ensures v >= 100 ==> Split(value, v / 100, TwoDigits(v % 100) + text)
    ensures v < 100 ==> TwoDigits(v) + text == Decimal(value)
  {
    DecimalByTwo(v);
    if v >= 100 {
      assert Decimal(v / 100) + TwoDigits(v % 100) + text == Decimal(v / 100) + (TwoDigits(v % 100) + text);
    }
  }

  lemma SplitOne(value: nat, v: nat, text: string)
    requires Split(value, v, text)
    ensures |text| + 1 <= |Decimal(value)|
    ensures v >= 10 ==> Split(value, v / 10, [DigitChar(v % 10)] + text)
    ensures v < 10 ==> [DigitChar(v)] + text == Decimal(value)
  {
    if v >= 10 {
      assert Decimal(v / 10) + [DigitChar(v % 10)] + text == Decimal(v / 10) + ([DigitChar(v % 10)] + text);
    }
  }

  // Writes backwards from the end of the field, two digits at a time.
  method FormatDecimal(out: array<char>, start: nat, value: nat, size: nat) returns (begin: nat)
    requires start + size <= out.Length && size >= |Decimal(value)|
    modifies out
    ensures begin + |Decimal(value)| == start + size
    ensures Written(old(out[..]), out[..], begin, Decimal(value))
  {
    var v, p := value, start + size;
    ghost var before, text := out[..], "";
    while v >= 100
      invariant Split(value, v, text) && p + |text| == start + size
      invariant Written(before, out[..], p, text)
    {
      SplitTwo(value, v, text);
      p := p - 2;
      text := CopyTwo(out, p, v % 100, before, text);
      v := v / 100;
    }
    if v < 10 {
      SplitOne(value, v, text);
      p := p - 1;
      WriteBefore(before, out[..], p + 1, text, DigitChar(v));
      out[p] := DigitChar(v);
      return p;
    }
    SplitTwo(value, v, text);
    p := p - 2;
    text := CopyTwo(out, p, v, before, text);
    return p;
  }

  // Copies a row of the digit table.
  method CopyTwo(out: array<char>, p: nat, v: nat, ghost before: string, ghost text: string) returns (ghost text': string)
    requires v < 100 && Written(before, out[..], p + 2, text)
    modifies out
    ensures text' == TwoDigits(v) + text && Written(before, out[..], p, text')
  {
    WriteBefore(before, out[..], p + 2, text, DigitChar(v % 10));
    out[p + 1] := DigitChar(v % 10);
    WriteBefore(before, out[..], p + 1, [DigitChar(v % 10)] + text, DigitChar(v / 10));
    out[p] := DigitChar(v / 10);
    text' := TwoDigits(v) + text;
    assert text' == [DigitChar(v / 10)] + ([DigitChar(v % 10)] + text);
  }

  // The form used during constant evaluation, one digit at a time.
  method FormatDecimalByOne(out: array<char>, start: nat, value: nat, size: nat) returns (begin: nat)
    requires start + size <= out.Length && size >= |Decimal(value)|
    modifies out
    ensures begin + |Decimal(value)| == start + size
    ensures Written(old(out[..]), out[..], begin, Decimal(value))
  {
    var v, p := value, start + size;
    ghost var before, text := out[..], "";
    while v >= 10
      invariant Split(value, v, text) && p + |text| == start + size
      invariant Written(before, out[..], p, text)
    {
      SplitOne(value, v, text);
      WriteBefore(before, out[..], p, text, DigitChar(v % 10));
      p := p - 1;
      out[p] := DigitChar(v % 10);
      text := [DigitChar(v % 10)] + text;
      v := v / 10;
    }
    SplitOne(value, v, text);
    WriteBefore(before, out[..], p, text, DigitChar(v));
    p := p - 1;
    out[p] := DigitChar(v);
    return p;
  }

  // One past the digits that start at i.
  function DigitsEnd(s: string, i: nat): (p: nat)
    requires i <= |s|
    ensures i <= p <= |s| && AllDigits(s[i..p]) && (p == |s| || !IsDigit(s[p]))
    decreases |s| - i
  {
    if i < |s| && IsDigit(s[i]) then
      var p := DigitsEnd(s, i + 1);
      assert s[i..p] == [s[i]] + s[i + 1..p];
      p
    else i
  }

  lemma {:induction false} DigitsEndUnique(s: string, i: nat, p: nat)
    requires i <= p <= |s| && (forall k :: i <= k < p ==> IsDigit(s[k])) && (p == |s| || !IsDigit(s[p]))
    ensures DigitsEnd(s, i) == p
    decreases p - i
  {
    if i < p {
      DigitsEndUnique(s, i + 1, p);
    }
  }

  // What the digits are worth to the parser: more than ten of them, or more than
  // the largest int, are an error, whatever the unsigned arithmetic wrapped to.
  ghost function ParsedInt(digits: string, errorValue: int): int {
    if |digits| <= 10 && Number(digits) <= INT_MAX then Number(digits) else errorValue
  }

  method ParseNonnegativeInt(s: string, begin: nat, errorValue: int) returns (value: int, end: nat)
    requires begin < |s| && IsDigit(s[begin])
    ensures end == DigitsEnd(s, begin)
    ensures value == ParsedInt(s[begin..end], errorValue)
  {
    var v, prev, p := DigitOf(s[begin]), 0, begin + 1;
    WrappedStep(s, begin, begin);
    while p < |s| && IsDigit(s[p])
      invariant begin < p <= |s| && forall k :: begin <= k < p ==> IsDigit(s[k])
      invariant v == Wrapped(s[begin..p]) && prev == Wrapped(s[begin..p - 1])
    {
      WrappedStep(s, begin, p);
      prev := v;
      v := (v * 10 + DigitOf(s[p])) % U32;
      p := p + 1;
    }
    end := p;
    DigitsEndUnique(s, begin, p);
    OverflowIsDetected(s, begin, p, errorValue);
    if p - begin <= 9 {
      return v, end;
    }
    value := if p - begin == 10 && prev * 10 + DigitOf(s[p - 1]) <= INT_MAX then v else errorValue;
  }

  // The number as 32-bit unsigned arithmetic accumulates it.
  ghost function Wrapped(digits: string): int {
    Number(digits) % U32
  }

  lemma WrappedStep(s: string, begin: nat, p: nat)
    requires begin <= p < |s|
    ensures Wrapped(s[begin..p + 1]) == (Wrapped(s[begin..p]) * 10 + DigitOf(s[p])) % U32
    ensures begin == p && IsDigit(s[p]) ==> Wrapped(s[begin..p]) == 0 && Wrapped(s[begin..p + 1]) == DigitOf(s[p])
  {
    NumberSlice(s, begin, p);
    WrapStep(Number(s[begin..p]), Wrapped(s[begin..p]), DigitOf(s[p]));
    if begin == p {
      assert s[begin..p] == [];
    }
  }

  lemma OverflowIsDetected(s: string, begin: nat, p: nat, errorValue: int)
    requires begin < p <= |s| && forall k :: begin <= k < p ==> IsDigit(s[k])
    ensures p - begin <= 9 ==> Wrapped(s[begin..p]) == ParsedInt(s[begin..p], errorValue)
    ensures p - begin == 10 ==>
              ParsedInt(s[begin..p], errorValue)
              == if Wrapped(s[begin..p - 1]) * 10 + DigitOf(s[p - 1]) <= INT_MAX then Wrapped(s[begin..p]) else errorValue
  {
    NumberSlice(s, begin, p - 1);
    NumberBound(s[begin..p]);
    NumberBound(s[begin..p - 1]);
    SmallNumbers(p - begin);
  }

  lemma NumberSlice(s: string, begin: nat, p: nat)
    requires begin <= p < |s|
    ensures Number(s[begin..p + 1]) == 10 * Number(s[begin..p]) + DigitOf(s[p])
  {
    assert s[begin..p + 1] == s[begin..p] + [s[p]];
    NumberAppend(s[begin..p], s[p]);
  }

  lemma WrapStep(number: int, wrapped: int, digit: int)
    requires wrapped == number % U32
    ensures (wrapped * 10 + digit) % U32 == (10 * number + digit) % U32
  {
    var q, m := number / U32, wrapped * 10 + digit;
    DivModUnique(10 * number + digit, U32, 10 * q + m / U32, m % U32);
  }

  lemma SmallNumbers(digits: nat)
    ensures digits <= 9 ==> Pow(10, digits) <= 1_000_000_000
    ensures digits == 10 ==> Pow(10, digits - 1) <= 1_000_000_000
  {
    PowersOfTen();
    if digits <= 9 {
      PowMonotone(10, digits, 9);
    }
  }

  // Reading the numeral of n back gives n exactly when n is an int.
  lemma ParseInvertsFormat(n: nat, rest: string, errorValue: int)
    requires rest == "" || !IsDigit(rest[0])
    ensures DigitsEnd(Decimal(n) + rest, 0) == |Decimal(n)|
    ensures ParsedInt(Decimal(n), errorValue) == if n <= INT_MAX then n else errorValue
  {
    DecimalSpells(n);
    DigitsEndUnique(Decimal(n) + rest, 0, |Decimal(n)|);
    PowersOfTen();
    if |Decimal(n)| > 10 {
      PowMonotone(10, 10, |Decimal(n)| - 1);
    }
  }

  // Leading zeros count: eleven digits are refused even when they spell one.
  lemma LeadingZerosCount(errorValue: int)
    ensures Number("00000000001") == 1 && ParsedInt("00000000001", errorValue) == errorValue
  {
    var zeros := "0000000000";
    NumberZeros(zeros);
    NumberAppend(zeros, '1');
    assert zeros + ['1'] == "00000000001";
  }
}
