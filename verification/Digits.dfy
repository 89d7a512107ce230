// Decimal digit buffers and the number they spell.
module Digits {
  import opened Powers

  // '0' + d. The value ten is ':' and only appears while a carry is pending.
  function DigitChar(d: nat): (c: char)
    requires d <= 10
  {
    ('0' as int + d) as char
  }

  function DigitOf(c: char): int {
    c as int - '0' as int
  }

  predicate IsDigit(c: char) {
    '0' <= c <= '9'
  }

  predicate AllDigits(s: seq<char>) {
    forall i :: 0 <= i < |s| ==> IsDigit(s[i])
  }

  ghost function Number(s: seq<char>): int {
    if s == [] then 0 else 10 * Number(s[..|s| - 1]) + DigitOf(s[|s| - 1])
  }

  lemma NumberAppend(s: seq<char>, c: char)
    ensures Number(s + [c]) == 10 * Number(s) + DigitOf(c)
  {
    assert (s + [c])[..|s|] == s;
  }

  lemma {:induction false} NumberBound(s: seq<char>)
    requires AllDigits(s)
    ensures 0 <= Number(s) < Pow(10, |s|)
  {
    if s == [] {
    } else {
      NumberBound(s[..|s| - 1]);
    }
  }

  // Changing one character changes the number by the weight of its place.
  lemma {:induction false} NumberUpdate(s: seq<char>, i: nat, c: char)
    requires i < |s|
    ensures Number(s[i := c]) == Number(s) + (DigitOf(c) - DigitOf(s[i])) * Pow(10, |s| - 1 - i)
  {
    var n := |s| - 1;
    if i == n {
      assert s[i := c][..n] == s[..n];
    } else {
      assert s[i := c][..n] == s[..n][i := c];
      NumberUpdate(s[..n], i, c);
      MulAssoc(10, DigitOf(c) - DigitOf(s[i]), Pow(10, n - 1 - i));
      MulAssoc(DigitOf(c) - DigitOf(s[i]), 10, Pow(10, n - 1 - i));
    }
  }

  lemma {:induction false} NumberZeros(s: seq<char>)
    requires forall i :: 0 <= i < |s| ==> s[i] == '0'
    ensures Number(s) == 0
  {
    if s == [] {
    } else {
      NumberZeros(s[..|s| - 1]);
    }
  }

  // Carries a pending ten at the end of the buffer towards its front. When it
  // reaches the front the buffer becomes one followed by zeros, and the caller
  // has to account for a factor of ten.
  method PropagateCarry(digits: seq<char>) returns (buf: seq<char>, overflow: bool)
    requires |digits| > 0
    requires AllDigits(digits[..|digits| - 1]) && '0' <= digits[|digits| - 1] <= ':'
    ensures |buf| == |digits| && AllDigits(buf)
    ensures Number(buf) * (if overflow then 10 else 1) == Number(digits)
    ensures overflow <==> Number(digits) == Pow(10, |digits|)
    ensures overflow ==> Number(buf) == Pow(10, |digits| - 1)
  {
    buf := digits;
    var i := |buf| - 1;
    assert forall k :: 0 <= k < i ==> digits[..i][k] == digits[k];
    while i > 0 && buf[i] > '9'
      invariant 0 <= i < |buf| == |digits|
      invariant forall k :: 0 <= k < |buf| && k != i ==> IsDigit(buf[k])
      invariant '0' <= buf[i] <= ':'
      invariant buf[i] == ':' ==> forall k :: i < k < |buf| ==> buf[k] == '0'
      invariant Number(buf) == Number(digits)
    {
      CarryOne(buf, i);
      buf := buf[i := '0'];
      buf := buf[i - 1 := (buf[i - 1] as int + 1) as char];
      i := i - 1;
    }
    overflow := buf[0] > '9';
    if overflow {
      OneAndZeros(buf);
      buf := buf[0 := '1'];
    } else {
      NumberBound(buf);
    }
  }

  lemma CarryOne(buf: seq<char>, i: nat)
    requires 0 < i < |buf| && buf[i] == ':' && IsDigit(buf[i - 1])
    ensures Number(buf[i := '0'][i - 1 := (buf[i - 1] as int + 1) as char]) == Number(buf)
  {
    NumberUpdate(buf, i, '0');
    NumberUpdate(buf[i := '0'], i - 1, (buf[i - 1] as int + 1) as char);
  }

  lemma OneAndZeros(buf: seq<char>)
    requires |buf| > 0 && buf[0] == ':' && forall k :: 0 < k < |buf| ==> buf[k] == '0'
    ensures Number(buf) == Pow(10, |buf|)
    ensures Number(buf[0 := '1']) == Pow(10, |buf| - 1)
  {
    NumberUpdate(buf, 0, '0');
    NumberZeros(buf[0 := '0']);
    NumberUpdate(buf, 0, '1');
  }
}
