// Digit grouping: the size is worked out in one pass over the groups, the cells
// are filled from the right in another, and the two have to agree.
module Grouping {
  import opened Wrappers
  import opened Powers
  import opened Digits
  import opened CountDigitsModel
  import opened DecimalText

  const CHAR_MAX := 127

  // A group size that ends the grouping.
  predicate Stops(group: int) {
    group <= 0 || group == CHAR_MAX
  }

  // The group to the left of group g; the last one repeats.
  function NextGroup(groups: seq<int>, g: nat): nat
    requires g < |groups|
  {
    if g + 1 < |groups| then g + 1 else g
  }

  // ds with separators, when the rightmost group is number g and `done` of its
  // digits are already to the right of ds.
  ghost function Grouped(ds: string, groups: seq<int>, g: nat, done: nat, sep: char): string
    requires g < |groups|
    requires Stops(groups[g]) || done < groups[g]
    decreases |ds|
  {
    if Stops(groups[g]) || |ds| <= groups[g] - done then ds
    else
      var cut := |ds| - (groups[g] - done);
      Grouped(ds[..cut], groups, NextGroup(groups, g), 0, sep) + [sep] + ds[cut..]
  }

  // The number of cells for n digits.
  ghost function Width(n: int, groups: seq<int>, g: nat): int
    requires g < |groups|
    decreases if n < 0 then 0 else n
  {
    if Stops(groups[g]) || n <= groups[g] then n
    else Width(n - groups[g], groups, NextGroup(groups, g)) + 1 + groups[g]
  }

  lemma {:induction false} GroupedWidth(ds: string, groups: seq<int>, g: nat, sep: char)
    requires g < |groups|
    ensures |Grouped(ds, groups, g, 0, sep)| == Width(|ds|, groups, g)
    decreases |ds|
  {
    if !Stops(groups[g]) && |ds| > groups[g] {
      GroupedWidth(ds[..|ds| - groups[g]], groups, NextGroup(groups, g), sep);
    }
  }

  // Where the last group repeats, the separators are counted by one division.
  lemma {:induction false} RepeatedWidth(n: nat, groups: seq<int>)
    requires n > 0 && |groups| > 0 && !Stops(groups[|groups| - 1])
    ensures Width(n, groups, |groups| - 1) == n + (n - 1) / groups[|groups| - 1]
    decreases n
  {
    var d := groups[|groups| - 1];
    if n > d {
      RepeatedWidth(n - d, groups);
      DivideLess(n - 1, d);
    } else {
      DivModUnique(n - 1, d, 0, n - 1);
    }
  }

  lemma DivideLess(a: nat, d: nat)
    requires d > 0 && a >= d
    ensures a / d == (a - d) / d + 1
  {
    var q := (a - d) / d;
    MulDistribute(q, 1, d);
    DivModUnique(a, d, q + 1, (a - d) % d);
  }

  // The first pass.
  method GroupedSize(numDigits: nat, groups: seq<int>) returns (size: int)
    requires numDigits > 0 && |groups| > 0
    ensures size == Width(numDigits, groups, 0)
  {
    var n := numDigits;
    size := n;
    var g := 0;
    while g < |groups| && n > groups[g] && groups[g] > 0 && groups[g] != CHAR_MAX
      invariant 0 <= g <= |groups| && n > 0
      invariant g == |groups| ==> !Stops(groups[g - 1])
      invariant size - n + Width(n, groups, if g < |groups| then g else g - 1) == Width(numDigits, groups, 0)
      decreases |groups| - g
    {
      size := size + 1;
      n := n - groups[g];
      g := g + 1;
    }
    if g == |groups| {
      RepeatedWidth(n, groups);
      size := size + (n - 1) / groups[|groups| - 1];
    }
  }

  // What the counter of the second pass says about the current group.
  ghost function DoneOf(groups: seq<int>, g: nat, digitIndex: nat): nat
    requires g < |groups|
  {
    if Stops(groups[g]) then 0 else digitIndex % groups[g]
  }

  lemma CounterStep(digitIndex: nat, group: nat)
    requires group > 0
    ensures (digitIndex + 1) % group == if digitIndex % group + 1 == group then 0 else digitIndex % group + 1
  {
    var q, r := digitIndex / group, digitIndex % group;
    MulDistribute(q, 1, group);
    if r + 1 == group {
      DivModUnique(digitIndex + 1, group, q + 1, 0);
    } else {
      DivModUnique(digitIndex + 1, group, q, r + 1);
    }
  }

  // One digit of the second pass: it goes to the right end, with or without a
  // separator before it.
  lemma GroupedStep(ds: string, groups: seq<int>, g: nat, done: nat, sep: char)
    requires |ds| >= 2 && g < |groups| && (Stops(groups[g]) || done < groups[g])
    ensures var n, last := |ds| - 1, [ds[|ds| - 1]];
            if Stops(groups[g]) then Grouped(ds, groups, g, done, sep) == Grouped(ds[..n], groups, g, done, sep) + last
            else if done + 1 == groups[g] then
              Grouped(ds, groups, g, done, sep) == Grouped(ds[..n], groups, NextGroup(groups, g), 0, sep) + [sep] + last
            else Grouped(ds, groups, g, done, sep) == Grouped(ds[..n], groups, g, done + 1, sep) + last
  {
    var n := |ds| - 1;
    assert ds == ds[..n] + [ds[n]];
    if !Stops(groups[g]) && |ds| > groups[g] - done {
      var cut := |ds| - (groups[g] - done);
      if done + 1 != groups[g] {
        assert ds[..n][..cut] == ds[..cut];
        assert ds[cut..] == ds[..n][cut..] + [ds[n]];
      } else {
        assert cut == n && ds[cut..] == [ds[n]];
      }
    }
  }

  // The cells from p + 1 on hold `tail`; the ones before are still free.
  ghost predicate Filled(cells: seq<char>, p: int, tail: string) {
    -1 <= p && p + 1 + |tail| == |cells| && cells[p + 1..] == tail
  }

  lemma FillOne(cells: seq<char>, p: nat, tail: string, c: char)
    requires Filled(cells, p, tail)
    ensures Filled(cells[p := c], p - 1, [c] + tail)
  {
    assert cells[p := c][p..] == [c] + cells[p + 1..];
  }

  lemma {:induction false} GroupedIsLonger(ds: string, groups: seq<int>, g: nat, done: nat, sep: char)
    requires g < |groups| && (Stops(groups[g]) || done < groups[g])
    ensures |Grouped(ds, groups, g, done, sep)| >= |ds|
    decreases |ds|
  {
    if !Stops(groups[g]) && |ds| > groups[g] - done {
      GroupedIsLonger(ds[..|ds| - (groups[g] - done)], groups, NextGroup(groups, g), 0, sep);
    }
  }

  ghost predicate Counted(groups: seq<int>, group: nat, index: nat, separate: bool, g: nat, digitIndex: nat)
    requires group < |groups| && g < |groups|
  {
    var done := DoneOf(groups, group, index);
    if Stops(groups[group]) then !separate && g == group && DoneOf(groups, g, digitIndex) == 0
    else if done + 1 == groups[group] then separate && g == NextGroup(groups, group) && DoneOf(groups, g, digitIndex) == 0
    else !separate && g == group && DoneOf(groups, g, digitIndex) == done + 1
  }

  // The first n digits are still to be written before `tail`.
  ghost predicate Pending(digits: string, n: nat, groups: seq<int>, g: nat, digitIndex: nat, sep: char, tail: string, all: string)
    requires n <= |digits| && g < |groups|
  {
    && Grouped(digits[..n], groups, g, DoneOf(groups, g, digitIndex), sep) + tail == all
    && n + |tail| <= |all|
  }

  lemma PendingStep(digits: string, n: nat, groups: seq<int>, group: nat, index: nat, sep: char, tail: string, all: string,
                    separate: bool, g: nat, digitIndex: nat)
    requires 1 <= n < |digits| && group < |groups| && g < |groups|
    requires Pending(digits, n + 1, groups, group, index, sep, tail, all) && Counted(groups, group, index, separate, g, digitIndex)
    ensures Pending(digits, n, groups, g, digitIndex, sep, (if separate then [sep] else []) + ([digits[n]] + tail), all)
    ensures n + 1 + |tail| + (if separate then 1 else 0) <= |all|
  {
    GroupedStep(digits[..n + 1], groups, group, DoneOf(groups, group, index), sep);
    assert digits[..n + 1][..n] == digits[..n];
    GroupedIsLonger(digits[..n], groups, g, DoneOf(groups, g, digitIndex), sep);
    var rest := Grouped(digits[..n], groups, g, DoneOf(groups, g, digitIndex), sep);
    if separate {
      assert rest + [sep] + [digits[n]] + tail == rest + ([sep] + ([digits[n]] + tail));
    } else {
      assert rest + [digits[n]] + tail == rest + ([] + ([digits[n]] + tail));
    }
  }

  // Counts one more digit; `separate` says that a separator comes before it.
  method CountDigit(groups: seq<int>, group: nat, index: nat) returns (separate: bool, g: nat, digitIndex: nat)
    requires group < |groups|
    ensures g < |groups| && Counted(groups, group, index, separate, g, digitIndex)
  {
    g, digitIndex := group, index;
    if groups[g] <= 0 {
      return false, g, digitIndex;
    }
    CounterStep(digitIndex, groups[g]);
    digitIndex := digitIndex + 1;
    if digitIndex % groups[g] != 0 || groups[g] == CHAR_MAX {
      return false, g, digitIndex;
    }
    if g + 1 < |groups| {
      digitIndex := 0;
      g := g + 1;
    }
    separate := true;
  }

  // The second pass: cells first.. receive the grouped digits, and the cursor
  // ends on the cell before them.
  method Fill(buffer: array<char>, first: nat, digits: string, groups: seq<int>, sep: char) returns (p: int)
    requires |digits| > 0 && |groups| > 0 && buffer.Length == first + Width(|digits|, groups, 0)
    modifies buffer
    ensures p == first - 1 && Filled(buffer[..], p, Grouped(digits, groups, 0, 0, sep))
  {
    ghost var all, tail := Grouped(digits, groups, 0, 0, sep), "";
    PendingStart(digits, groups, sep);
    p := buffer.Length - 1;
    var digitIndex: nat, g: nat, i := 0, 0, |digits| - 1;
    while i > 0
      invariant 0 <= i < |digits| && g < |groups| && Filled(buffer[..], p, tail)
      invariant Pending(digits, i + 1, groups, g, digitIndex, sep, tail, all)
    {
      ghost var before := tail;
      p, tail := Put(buffer, p, digits[i], tail);
      var separate, g', digitIndex' := CountDigit(groups, g, digitIndex);
      PendingStep(digits, i, groups, g, digitIndex, sep, before, all, separate, g', digitIndex');
      if separate {
        p, tail := Put(buffer, p, sep, tail);
      } else {
        assert [] + tail == tail;
      }
      g, digitIndex := g', digitIndex';
      i := i - 1;
    }
    PendingEnd(digits, groups, g, digitIndex, sep, tail, all);
    p, tail := Put(buffer, p, digits[0], tail);
  }

  lemma PendingStart(digits: string, groups: seq<int>, sep: char)
    requires |digits| > 0 && |groups| > 0
    ensures var all := Grouped(digits, groups, 0, 0, sep);
            |all| == Width(|digits|, groups, 0) && Pending(digits, |digits|, groups, 0, 0, sep, "", all)
  {
    GroupedWidth(digits, groups, 0, sep);
    GroupedIsLonger(digits, groups, 0, 0, sep);
    assert DoneOf(groups, 0, 0) == 0;
    assert digits[..|digits|] == digits && Grouped(digits, groups, 0, 0, sep) + "" == Grouped(digits, groups, 0, 0, sep);
  }

  lemma PendingEnd(digits: string, groups: seq<int>, g: nat, digitIndex: nat, sep: char, tail: string, all: string)
    requires |digits| > 0 && g < |groups| && Pending(digits, 1, groups, g, digitIndex, sep, tail, all)
    ensures [digits[0]] + tail == all
  {
    assert digits[..1] == [digits[0]];
  }

  method Put(buffer: array<char>, p: int, c: char, ghost tail: string) returns (p': int, ghost tail': string)
    requires 0 <= p && Filled(buffer[..], p, tail)
    modifies buffer
    ensures p' == p - 1 && tail' == [c] + tail && Filled(buffer[..], p', tail')
  {
    FillOne(buffer[..], p, tail, c);
    buffer[p] := c;
    p', tail' := p - 1, [c] + tail;
  }

  ghost function Prefixed(prefix: Option<char>, text: string): string {
    match prefix
    case None => text
    case Some(c) => [c] + text
  }

  // The text of `value` in the locale's grouping. Its length is fixed before a
  // single cell is written, and it fits exactly.
  method WriteIntLocalized(value: nat, prefix: Option<char>, groups: seq<int>, sep: char) returns (data: array<char>)
    requires |groups| > 0 && |Decimal(value)| <= 40
    ensures data[..] == Prefixed(prefix, Separated(Decimal(value), groups, |Decimal(value)|, sep))
  {
    SeparatorsStand(Decimal(value), groups, sep);
    DecimalSpells(value);
    var numDigits := CountDigitsFallback(value);
    HasDigitsUnique(value, numDigits, |Decimal(value)|);
    var size := GroupedSize(numDigits, groups);
    GroupedWidth(Decimal(value), groups, 0, sep);
    var digits := new char[40];
    var begin := FormatDecimal(digits, 0, value, numDigits);
    assert digits[..numDigits] == Decimal(value);
    data := FillAll(digits[..numDigits], size, prefix, groups, sep);
  }

  method FillAll(digits: string, width: int, prefix: Option<char>, groups: seq<int>, sep: char) returns (data: array<char>)
    requires |digits| > 0 && |groups| > 0 && width == Width(|digits|, groups, 0) >= 0
    ensures data[..] == Prefixed(prefix, Grouped(digits, groups, 0, 0, sep))
  {
    var size := width;
    if prefix.Some? {
      size := size + 1;
    }
    data := new char[size];
    var p := Fill(data, size - width, digits, groups, sep);
    ghost var text := Grouped(digits, groups, 0, 0, sep);
    if prefix.Some? {
      FillOne(data[..], p, text, prefix.value);
      data[p] := prefix.value;
    }
    assert data[..] == data[0..];
  }

  // The size of the group number j from the right.
  ghost function GroupSize(groups: seq<int>, j: nat): int
    requires |groups| > 0
  {
    groups[if j < |groups| then j else |groups| - 1]
  }

  // How many digits the first n groups hold.
  ghost function GroupSum(groups: seq<int>, n: nat): int
    requires |groups| > 0
  {
    if n == 0 then 0 else GroupSum(groups, n - 1) + GroupSize(groups, n - 1)
  }

  // A separator has k digits to its right.
  ghost predicate IsCut(groups: seq<int>, k: int)
    requires |groups| > 0
  {
    exists n: nat :: n > 0 && k == GroupSum(groups, n) && NoStop(groups, n)
  }

  ghost predicate NoStop(groups: seq<int>, n: nat)
    requires |groups| > 0
  {
    forall j: nat :: j < n ==> !Stops(GroupSize(groups, j))
  }

  // The first m digits, each with a separator before it if one belongs there.
  ghost function Separated(ds: string, groups: seq<int>, m: nat, sep: char): string
    requires |groups| > 0 && m <= |ds|
  {
    if m == 0 then ""
    else Separated(ds, groups, m - 1, sep) + SepIf(m > 1 && IsCut(groups, |ds| - (m - 1)), sep) + [ds[m - 1]]
  }

  ghost predicate NoCuts(groups: seq<int>, low: int, high: int)
    requires |groups| > 0
  {
    forall k :: low < k < high ==> !IsCut(groups, k)
  }

  function SepIf(b: bool, sep: char): string {
    if b then [sep] else []
  }

  lemma {:induction false} NoCutBetween(ds: string, groups: seq<int>, low: nat, m: nat, sep: char)
    requires |groups| > 0 && low < m <= |ds| && NoCuts(groups, |ds| - m, |ds| - low)
    ensures Separated(ds, groups, m, sep) ==
            Separated(ds, groups, low, sep) + SepIf(low > 0 && IsCut(groups, |ds| - low), sep) + ds[low..m]
    decreases m
  {
    hide IsCut;
    var head := Separated(ds, groups, low, sep) + SepIf(low > 0 && IsCut(groups, |ds| - low), sep);
    if m - 1 > low {
      NoCutBetween(ds, groups, low, m - 1, sep);
      assert !IsCut(groups, |ds| - (m - 1));
      OneMoreDigit(head, ds, low, m);
    } else {
      assert ds[low..m] == [ds[m - 1]];
    }
  }

  lemma OneMoreDigit(head: string, ds: string, low: nat, m: nat)
    requires low < m <= |ds|
    ensures head + ds[low..m - 1] + [] + [ds[m - 1]] == head + ds[low..m]
  {
    assert ds[low..m] == ds[low..m - 1] + [ds[m - 1]];
  }

  lemma {:induction false} SumGrows(groups: seq<int>, c: nat, n: nat)
    requires |groups| > 0 && c <= n && NoStop(groups, n)
    ensures GroupSum(groups, c) <= GroupSum(groups, n)
    ensures c < n ==> GroupSum(groups, c) + GroupSize(groups, c) <= GroupSum(groups, n)
    decreases n
  {
    if c < n {
      SumGrows(groups, c, n - 1);
    }
  }

  // After c groups, the next cut is one group further on, if it does not stop.
  lemma NextCut(groups: seq<int>, c: nat, k: int)
    requires |groups| > 0 && NoStop(groups, c) && k > GroupSum(groups, c) && IsCut(groups, k)
    ensures !Stops(GroupSize(groups, c)) && k >= GroupSum(groups, c) + GroupSize(groups, c)
  {
    var n: nat :| n > 0 && k == GroupSum(groups, n) && NoStop(groups, n);
    if n <= c {
      SumGrows(groups, n, c);
    } else {
      SumGrows(groups, c, n);
    }
  }

  lemma CutHere(groups: seq<int>, c: nat)
    requires |groups| > 0 && NoStop(groups, c) && !Stops(GroupSize(groups, c))
    ensures NoStop(groups, c + 1) && IsCut(groups, GroupSum(groups, c) + GroupSize(groups, c))
    ensures GroupSum(groups, c + 1) == GroupSum(groups, c) + GroupSize(groups, c)
  {
    assert NoStop(groups, c + 1);
    assert GroupSum(groups, c + 1) == GroupSum(groups, c) + GroupSize(groups, c);
  }

  lemma NoCutBefore(groups: seq<int>, c: nat, low: int, high: int)
    requires |groups| > 0 && NoStop(groups, c) && low >= GroupSum(groups, c)
    requires Stops(GroupSize(groups, c)) || high <= GroupSum(groups, c) + GroupSize(groups, c)
    ensures NoCuts(groups, low, high)
  {
    forall k | low < k < high
      ensures !IsCut(groups, k)
    {
      if IsCut(groups, k) {
        NextCut(groups, c, k);
      }
    }
  }

  // Taking a group off, and the last one.
  lemma TakeGroup(ds: string, groups: seq<int>, g: nat, done: nat, left: string, right: string, sep: char)
    requires g < |groups| && !Stops(groups[g]) && done < groups[g] && |right| == groups[g] - done && left != ""
    requires ds == left + right
    ensures Grouped(ds, groups, g, done, sep) == Grouped(left, groups, NextGroup(groups, g), 0, sep) + [sep] + right
  {
    assert ds[..|left|] == left && ds[|left|..] == right;
  }

  lemma LastGroup(ds: string, groups: seq<int>, g: nat, done: nat, sep: char)
    requires g < |groups| && (Stops(groups[g]) || (done < groups[g] && |ds| <= groups[g] - done))
    ensures Grouped(ds, groups, g, done, sep) == ds
  {
  }

  // c groups and `done` digits are to the right of the first m digits.
  lemma {:induction false} GroupedSeparates(ds: string, groups: seq<int>, m: nat, c: nat, done: nat, sep: char)
    requires |groups| > 0 && m <= |ds| && NoStop(groups, c) && |ds| - m == GroupSum(groups, c) + done
    requires Stops(GroupSize(groups, c)) || done < GroupSize(groups, c)
    ensures var g := if c < |groups| then c else |groups| - 1;
            Grouped(ds[..m], groups, g, done, sep) == Separated(ds, groups, m, sep)
    decreases m
  {
    hide IsCut, NoStop, NoCuts, Grouped, Separated, GroupSum;
    var g := if c < |groups| then c else |groups| - 1;
    if Stops(groups[g]) || m <= groups[g] - done {
      NoCutBefore(groups, c, |ds| - m, |ds|);
      LastGroup(ds[..m], groups, g, done, sep);
      AllDigitsLeft(ds, groups, m, sep);
    } else {
      var cut := m - (groups[g] - done);
      CutHere(groups, c);
      NoCutBefore(groups, c, |ds| - m, |ds| - cut);
      NoCutBetween(ds, groups, cut, m, sep);
      assert ds[..m] == ds[..cut] + ds[cut..m];
      TakeGroup(ds[..m], groups, g, done, ds[..cut], ds[cut..m], sep);
      FreshGroup(groups, c + 1);
      GroupedSeparates(ds, groups, cut, c + 1, 0, sep);
    }
  }

  lemma AllDigitsLeft(ds: string, groups: seq<int>, m: nat, sep: char)
    requires |groups| > 0 && m <= |ds| && NoCuts(groups, |ds| - m, |ds|)
    ensures Separated(ds, groups, m, sep) == ds[..m]
  {
    if m > 0 {
      NoCutBetween(ds, groups, 0, m, sep);
      assert Separated(ds, groups, 0, sep) == "" && "" + SepIf(false, sep) + ds[0..m] == ds[..m];
    }
  }

  lemma FreshGroup(groups: seq<int>, c: nat)
    requires |groups| > 0
    ensures Stops(GroupSize(groups, c)) || 0 < GroupSize(groups, c)
  {
  }

  // Separators stand where groups end, and nowhere else.
  lemma SeparatorsStand(ds: string, groups: seq<int>, sep: char)
    requires |groups| > 0
    ensures Grouped(ds, groups, 0, 0, sep) == Separated(ds, groups, |ds|, sep)
  {
    assert ds[..|ds|] == ds;
    FreshGroup(groups, 0);
    GroupedSeparates(ds, groups, |ds|, 0, 0, sep);
  }

  // A group of three and then groups of two: 1234567 is written 12,34,567.
  lemma ThreeAndTwos(groups: seq<int>, a: string, b: string, c: string, sep: char)
    requires groups == [3, 2] && 1 <= |a| <= 2 && |b| == 2 && |c| == 3
    ensures Separated(a + b + c, groups, |a| + 5, sep) == a + [sep] + b + [sep] + c
  {
    hide Separated, Grouped;
    var ab := a + b;
    SeparatorsStand(ab + c, groups, sep);
    TakeGroup(ab + c, groups, 0, 0, ab, c, sep);
    TwoGroups(groups, a, b, ab, sep);
  }

  lemma TwoGroups(groups: seq<int>, a: string, b: string, ab: string, sep: char)
    requires |groups| == 2 && groups[1] == 2 && 1 <= |a| <= 2 && |b| == 2 && ab == a + b
    ensures Grouped(ab, groups, 1, 0, sep) == a + [sep] + b
  {
    hide Grouped;
    TakeGroup(ab, groups, 1, 0, a, b, sep);
    LastGroup(a, groups, 1, 0, sep);
  }

  ghost function Without(text: string, sep: char): string {
    if text == "" then ""
    else Without(text[..|text| - 1], sep) + if text[|text| - 1] == sep then "" else [text[|text| - 1]]
  }

  lemma {:induction false} WithoutConcat(a: string, b: string, sep: char)
    ensures Without(a + b, sep) == Without(a, sep) + Without(b, sep)
  {
    if b == "" {
      assert a + b == a;
    } else {
      assert (a + b)[..|a + b| - 1] == a + b[..|b| - 1];
      WithoutConcat(a, b[..|b| - 1], sep);
    }
  }

  lemma {:induction false} WithoutNothing(text: string, sep: char)
    requires sep !in text
    ensures Without(text, sep) == text
  {
    if text != "" {
      var n := |text| - 1;
      assert text[n] in text && sep !in text[..n];
      WithoutNothing(text[..n], sep);
      assert text == text[..n] + [text[n]];
    }
  }

  lemma WithoutAcross(left: string, right: string, sep: char)
    ensures Without(left + [sep] + right, sep) == Without(left, sep) + Without(right, sep)
  {
    WithoutConcat(left + [sep], right, sep);
    WithoutConcat(left, [sep], sep);
    assert [sep][..0] == "";
    assert Without(left, sep) + "" == Without(left, sep);
  }

  // Deleting the separators gives the digits back.
  lemma {:induction false} SeparatorsOnly(ds: string, groups: seq<int>, g: nat, done: nat, sep: char)
    requires g < |groups| && (Stops(groups[g]) || done < groups[g]) && sep !in ds
    ensures Without(Grouped(ds, groups, g, done, sep), sep) == ds
    decreases |ds|
  {
    if Stops(groups[g]) || |ds| <= groups[g] - done {
      WithoutNothing(ds, sep);
    } else {
      var cut := |ds| - (groups[g] - done);
      var left, right := ds[..cut], ds[cut..];
      assert ds == left + right;
      SeparatorsOnly(left, groups, NextGroup(groups, g), 0, sep);
      WithoutNothing(right, sep);
      WithoutAcross(Grouped(left, groups, NextGroup(groups, g), 0, sep), right, sep);
    }
  }

  // With a separator that is no digit, the printed number can be read back.
  lemma LocalizedReadsBack(value: nat, groups: seq<int>, sep: char)
    requires |groups| > 0 && !IsDigit(sep)
    ensures Number(Without(Separated(Decimal(value), groups, |Decimal(value)|, sep), sep)) == value
  {
    SeparatorsStand(Decimal(value), groups, sep);
    DecimalSpells(value);
    assert sep !in Decimal(value);
    SeparatorsOnly(Decimal(value), groups, 0, 0, sep);
  }
}
