// Packet loss: each period counts which of its expected serial numbers it was
// never given, once, at its first query.
module Losses {
  import opened Words
  import opened Wrappers
  import opened Powers
  import opened LossPercent

  // The serial numbers expected in a period, in order.
  function Expected(number: nat, size: nat): (e: seq<int>)
    ensures |e| == size
  {
    seq(size, i => number * size + i)
  }

  // Every serial number is expected in one period.
  lemma ExpectedOnce(x: nat, number: nat, size: nat)
    requires size > 0
    ensures x in Expected(number, size) <==> number == x / size
  {
    var q, r := x / size, x % size;
    assert x == q * size + r;
    if x in Expected(number, size) {
      var i :| 0 <= i < size && Expected(number, size)[i] == x;
      DivModUnique(x, size, number, i);
    }
    if number == q {
      assert Expected(number, size)[r] == x;
    }
  }

  ghost predicate IsExpected(e: seq<int>, number: nat, size: nat) {
    |e| == size && forall i :: 0 <= i < size ==> e[i] == number * size + i
  }

  ghost predicate Sorted(s: seq<int>) {
    forall i, j :: 0 <= i < j < |s| ==> s[i] <= s[j]
  }

  ghost predicate Increasing(s: seq<int>) {
    forall i, j :: 0 <= i < j < |s| ==> s[i] < s[j]
  }

  ghost function Elements(s: seq<int>): set<int> {
    set x | x in s
  }

  lemma {:induction false} IncreasingSize(s: seq<int>)
    requires Increasing(s)
    ensures |Elements(s)| == |s|
  {
    if s != [] {
      var n := |s| - 1;
      IncreasingSize(s[..n]);
      assert s == s[..n] + [s[n]];
      assert Elements(s) == Elements(s[..n]) + {s[n]};
      assert s[n] !in s[..n];
    }
  }

  // The expected serial numbers that `received` does not contain.
  ghost function Missing(number: nat, size: nat, received: seq<int>): set<int> {
    Elements(Expected(number, size)) - Elements(received)
  }

  // Their number, counted along the expected ones.
  ghost function MissingFrom(expected: seq<int>, received: seq<int>): nat {
    if expected == [] then 0
    else MissingFrom(expected[1..], received) + if expected[0] in received then 0 else 1
  }

  lemma {:induction false} MissingFromCounts(expected: seq<int>, received: seq<int>)
    requires Increasing(expected)
    ensures MissingFrom(expected, received) == |Elements(expected) - Elements(received)|
  {
    if expected != [] {
      var first, rest := expected[0], expected[1..];
      MissingFromCounts(rest, received);
      ElementsHead(expected, received);
    }
  }

  lemma ElementsHead(s: seq<int>, received: seq<int>)
    requires Increasing(s) && s != []
    ensures var more, all := Elements(s[1..]) - Elements(received), Elements(s) - Elements(received);
            s[0] !in more && all == if s[0] in received then more else more + {s[0]}
  {
    assert forall x :: x in s <==> x == s[0] || x in s[1..];
    assert forall x :: x in s[1..] ==> s[0] < x;
  }

  method Sort(s: seq<int>) returns (t: seq<int>)
    ensures Sorted(t) && multiset(t) == multiset(s)
  {
    t := [];
    for i := 0 to |s|
      invariant Sorted(t) && multiset(t) == multiset(s[..i])
    {
      assert s[..i + 1] == s[..i] + [s[i]];
      t := Insert(t, s[i]);
    }
    assert s[..|s|] == s;
  }

  method Insert(s: seq<int>, x: int) returns (t: seq<int>)
    requires Sorted(s)
    ensures Sorted(t) && multiset(t) == multiset(s) + multiset{x}
  {
    var k := 0;
    while k < |s| && s[k] < x
      invariant 0 <= k <= |s| && forall j :: 0 <= j < k ==> s[j] < x
    {
      k := k + 1;
    }
    assert s == s[..k] + s[k..];
    t := s[..k] + [x] + s[k..];
    InsertedIsSorted(s, k, x, t);
  }

  lemma InsertedIsSorted(s: seq<int>, k: nat, x: int, t: seq<int>)
    requires Sorted(s) && k <= |s| && t == s[..k] + [x] + s[k..]
    requires (forall j :: 0 <= j < k ==> s[j] < x) && (k < |s| ==> x <= s[k])
    ensures Sorted(t)
  {
    forall i, j | 0 <= i < j < |t|
      ensures t[i] <= t[j]
    {
      assert t[i] == if i < k then s[i] else if i == k then x else s[i - 1];
      assert t[j] == if j < k then s[j] else if j == k then x else s[j - 1];
    }
  }

  // The common elements of two sorted sequences, the first without repetitions.
  method Intersect(a: seq<int>, b: seq<int>) returns (common: seq<int>)
    requires Increasing(a) && Sorted(b)
    ensures Increasing(common) && Elements(common) == Elements(a) * Elements(b)
  {
    common := [];
    var i, j := 0, 0;
    while i < |a| && j < |b|
      invariant 0 <= i <= |a| && 0 <= j <= |b| && Increasing(common)
      invariant forall k, m :: 0 <= k < |common| && i <= m < |a| ==> common[k] < a[m]
      invariant forall x :: x in common ==> x in a && x in b
      invariant forall k, m :: 0 <= k < i && 0 <= m < |b| && a[k] == b[m] ==> a[k] in common
      invariant forall k, m :: i <= k < |a| && 0 <= m < j ==> b[m] < a[k]
      decreases |a| - i + |b| - j
    {
      if a[i] < b[j] {
        i := i + 1;
      } else if b[j] < a[i] {
        j := j + 1;
      } else {
        common := common + [a[i]];
        i, j := i + 1, j + 1;
      }
    }
    forall x | x in a && x in b
      ensures x in common
    {
      var k :| 0 <= k < |a| && a[k] == x;
      var m :| 0 <= m < |b| && b[m] == x;
      assert k < i || m < j;
    }
    assert forall x :: x in Elements(common) <==> x in Elements(a) && x in Elements(b);
  }

  lemma ExpectedIncreasing(number: nat, size: nat)
    ensures Increasing(Expected(number, size))
    ensures -1 !in Expected(number, size)
  {
    MulLe(0, number, size);
    assert forall i :: 0 <= i < size ==> Expected(number, size)[i] >= 0;
  }

  lemma PaddingIsNotExpected(number: nat, size: nat, received: seq<int>, padded: seq<int>, n: nat)
    requires n <= |padded| && padded[..n] == received && forall i :: n <= i < |padded| ==> padded[i] == -1
    ensures Missing(number, size, padded) == Missing(number, size, received)
  {
    ExpectedIncreasing(number, size);
    forall x | x != -1
      ensures x in padded <==> x in received
    {
      if x in received {
        var i :| 0 <= i < |received| && received[i] == x;
        assert padded[i] == x;
      }
    }
  }

  lemma MissingCount(number: nat, size: nat, current: seq<int>, common: seq<int>)
    requires Increasing(common) && Elements(common) == Elements(Expected(number, size)) * Elements(current)
    ensures |Missing(number, size, current)| == size - |common|
  {
    var e := Elements(Expected(number, size));
    ExpectedIncreasing(number, size);
    IncreasingSize(Expected(number, size));
    IncreasingSize(common);
    assert e == Missing(number, size, current) + Elements(common);
  }

  class Period {
    const number: nat
    const size: nat
    const expected: seq<int>
    var current: seq<int>
    var lastPacket: nat
    var losses: int
    // The packets that came before the first query.
    ghost var received: seq<int>

    ghost predicate Valid()
      reads this
    {
      && IsExpected(expected, number, size) && |current| == size && lastPacket <= size
      && if losses == -1 then current[..lastPacket] == received && forall i :: lastPacket <= i < size ==> current[i] == -1
         else losses == MissingFrom(expected, received)
    }

    constructor (number: nat, size: nat)
      ensures Valid() && this.number == number && this.size == size
      ensures lastPacket == 0 && losses == -1 && received == []
    {
      this.number, this.size := number, size;
      expected := Expected(number, size);
      current := seq(size, _ => -1);
      lastPacket, losses, received := 0, -1, [];
    }

    // There is room for `size` packets and no check: one that does not fit is
    // written past the end, and nothing is said about what happens then.
    method AddPacket(packetNumber: int) returns (fits: bool)
      requires Valid()
      modifies this
      ensures Valid() && (fits <==> old(lastPacket) < size)
      ensures lastPacket == old(lastPacket) + (if fits then 1 else 0) && losses == old(losses)
      ensures received == old(received) + if fits && old(losses) == -1 then [packetNumber] else []
    {
      fits := lastPacket < size;
      assert received + [] == received;
      if fits {
        current := current[lastPacket := packetNumber];
        lastPacket := lastPacket + 1;
        if losses == -1 {
          received := received + [packetNumber];
        }
      }
    }

    method CalcLoss()
      requires Valid() && losses == -1
      modifies this
      ensures Valid() && losses == |Missing(number, size, received)| && lastPacket == old(lastPacket) && received == old(received)
    {
      ghost var before := current;
      current := Sort(current);
      ExpectedIncreasing(number, size);
      var intersection := Intersect(expected, current);
      SameElements(before, current);
      assert expected == Expected(number, size);
      MissingCount(number, size, current, intersection);
      PaddingIsNotExpected(number, size, received, before, lastPacket);
      MissingFromCounts(expected, received);
      losses := |expected| - |intersection|;
    }

    // How many expected packets were missing at the first query; later packets
    // do not change the answer.
    method GetLoss() returns (loss: int)
      requires Valid()
      modifies this
      ensures Valid() && loss == losses == |Missing(number, size, received)| && 0 <= loss <= size
      ensures lastPacket == old(lastPacket) && received == old(received)
      ensures old(losses) != -1 ==> loss == old(losses)
    {
      if losses == -1 {
        CalcLoss();
      }
      assert expected == Expected(number, size);
      ExpectedIncreasing(number, size);
      MissingFromCounts(expected, received);
      MissingBound(number, size, received);
      loss := losses;
    }

    method GetTotal() returns (total: int)
      requires Valid()
      ensures total == size
    {
      total := |expected|;
    }
  }

  lemma SameElements(s: seq<int>, t: seq<int>)
    requires multiset(s) == multiset(t)
    ensures Elements(s) == Elements(t) && |s| == |t|
  {
    assert |multiset(s)| == |multiset(t)|;
    assert forall x :: x in s <==> x in multiset(s);
    assert forall x :: x in t <==> x in multiset(t);
  }

  lemma MissingBound(number: nat, size: nat, received: seq<int>)
    ensures |Missing(number, size, received)| <= size
  {
    var e := Elements(Expected(number, size));
    ExpectedIncreasing(number, size);
    IncreasingSize(Expected(number, size));
    Subset(Missing(number, size, received), e);
  }

  lemma Subset(a: set<int>, b: set<int>)
    requires a <= b
    ensures |a| <= |b|
  {
    assert b == a + (b - a);
  }

  // Clock readings are in ticks; whole seconds are counted towards zero.
  const TICKS := 1_000_000_000

  function Seconds(ticks: int): (seconds: int)
    ensures ticks >= 0 ==> seconds >= 0 && seconds * TICKS <= ticks < (seconds + 1) * TICKS
    ensures ticks <= 0 ==> seconds <= 0 && (seconds - 1) * TICKS < ticks <= seconds * TICKS
  {
    if ticks >= 0 then ticks / TICKS else -((-ticks) / TICKS)
  }

  ghost function Sum(s: seq<int>): int {
    if s == [] then 0 else Sum(s[..|s| - 1]) + s[|s| - 1]
  }

  lemma SumAppend(s: seq<int>, x: int)
    ensures Sum(s + [x]) == Sum(s) + x
  {
    assert (s + [x])[..|s|] == s;
  }

  lemma {:induction false} SumBound(s: seq<int>, most: nat)
    requires forall i :: 0 <= i < |s| ==> 0 <= s[i] <= most
    ensures 0 <= Sum(s) <= |s| * most
  {
    if s != [] {
      SumBound(s[..|s| - 1], most);
      MulDistribute(|s| - 1, 1, most);
    }
  }

  lemma {:induction false} KeyCount(packets: set<int>, first: nat, n: nat)
    requires first <= n && forall k :: k in packets <==> first <= k < n
    ensures |packets| == n - first
  {
    if n == first {
      assert forall k :: k !in packets;
    } else {
      assert n - 1 in packets;
      KeyCount(packets - {n - 1}, first, n - 1);
    }
  }

  // What a period holds.
  datatype Record = Record(received: seq<int>, lastPacket: nat, losses: int)

  // What a query leaves of the period k.
  ghost function Asked(r: Record, k: int, size: nat): Record {
    if r.losses == -1 && k >= 0 then r.(losses := |Missing(k, size, r.received)|) else r
  }

  // The periods from `first` up to `end` have been asked, and no others.
  ghost function AskedFrom(records: map<int, Record>, size: nat, first: int, end: int): map<int, Record> {
    map k | k in records :: if first <= k < end then Asked(records[k], k, size) else records[k]
  }

  // What the periods from `first` on answered: how many packets each missed.
  ghost predicate Answered(records: map<int, Record>, size: nat, k: int, loss: int) {
    0 <= k && k in records && loss == records[k].losses == |Missing(k, size, records[k].received)|
  }

  ghost predicate Answers(records: map<int, Record>, size: nat, first: int, losses: seq<int>) {
    forall i :: 0 <= i < |losses| ==> Answered(records, size, first + i, losses[i])
  }

  lemma OneMore(before: map<int, Record>, now: map<int, Record>, after: map<int, Record>, size: nat, first: nat, end: nat,
                losses: seq<int>, loss: int)
    requires now == AskedFrom(before, size, first, end) && end in before && end == first + |losses|
    requires after == now[end := Asked(now[end], end, size)] && Answers(now, size, first, losses)
    requires Answered(after, size, end, loss)
    ensures after == AskedFrom(before, size, first, end + 1) && Answers(after, size, first, losses + [loss])
  {
    hide Asked, Missing;
    forall i | 0 <= i < |losses| + 1
      ensures Answered(after, size, first + i, (losses + [loss])[i])
    {
      if i < |losses| {
        assert Answered(now, size, first + i, losses[i]);
      }
    }
  }

  class Detector {
    const evaluatePeriod: int
    const currentPeriod: int
    const packetsByPeriod: nat
    var lastPeriod: nat
    var lastPoint: int
    var packets: map<int, Period>

    ghost function Periods(): set<Period>
      reads `packets
    {
      set k | k in packets :: packets[k]
    }

    // The key of the first period. Without an evaluation period even the first
    // packet opens the next one.
    ghost function FirstKey(): nat {
      if evaluatePeriod <= 0 then 1 else 0
    }

    // The keys go from the first one to the last period, none left out.
    ghost predicate Valid()
      reads this, Periods()
    {
      && (forall k :: k in packets <==> FirstKey() <= k <= lastPeriod && packets != map[])
      && (if packets == map[] then lastPeriod == 0 && lastPoint == 0 else FirstKey() <= lastPeriod)
      && PeriodsValid()
    }

    ghost predicate PeriodsValid()
      reads `packets, Periods()
    {
      forall k :: k in packets ==> packets[k].number == k && packets[k].size == packetsByPeriod && packets[k].Valid()
    }

    constructor (evaluatePeriod: int, currentPeriod: int, packetsByPeriod: nat)
      ensures Valid() && packets == map[]
      ensures this.evaluatePeriod == evaluatePeriod && this.currentPeriod == currentPeriod && this.packetsByPeriod == packetsByPeriod
    {
      this.evaluatePeriod, this.currentPeriod, this.packetsByPeriod := evaluatePeriod, currentPeriod, packetsByPeriod;
      lastPeriod, lastPoint, packets := 0, 0, map[];
    }

    // The point the age of the period is measured from; zero stands for unset.
    function Since(now: int): int
      reads this
    {
      if lastPoint == 0 then now else lastPoint
    }

    // The period that a packet arriving at `now` belongs to: the next one when the
    // evaluation period, in seconds, has passed.
    function Target(now: int): nat
      reads this
    {
      var ticks := now - Since(now);
      var passed := if evaluatePeriod > 0 then ticks >= evaluatePeriod * TICKS else ticks > (evaluatePeriod - 1) * TICKS;
      if passed then lastPeriod + 1 else lastPeriod
    }

    // One packet for one period; two keys never share a period.
    method AddTo(k: int, serial: int) returns (fits: bool)
      requires Valid() && k in packets
      modifies packets[k]
      ensures Valid() && (fits <==> old(packets[k].lastPacket) < packetsByPeriod)
      ensures packets[k].lastPacket == old(packets[k].lastPacket) + if fits then 1 else 0
      ensures packets[k].losses == old(packets[k].losses)
      ensures fits && packets[k].losses == -1 ==> packets[k].received == old(packets[k].received) + [serial]
      ensures forall j :: j in packets && j != k ==> packets[j].received == old(packets[j].received)
    {
      fits := packets[k].AddPacket(serial);
    }

    // Makes sure that the last period exists; it may be one past the others.
    method TryEmplace()
      requires PeriodsValid() && FirstKey() <= lastPeriod && (packets == map[] ==> lastPeriod == FirstKey())
      requires forall k :: k in packets ==> FirstKey() <= k <= lastPeriod
      requires forall k :: FirstKey() <= k < lastPeriod ==> k in packets
      modifies this`packets
      ensures Valid() && lastPeriod in packets && fresh(Periods() - old(Periods()))
      ensures forall k :: k in old(packets) ==> k in packets && packets[k] == old(packets[k])
      ensures lastPeriod !in old(packets) ==>
                && fresh(packets[lastPeriod]) && packets[lastPeriod].received == []
                && packets[lastPeriod].lastPacket == 0 && packets[lastPeriod].losses == -1
    {
      if lastPeriod !in packets {
        var period := new Period(lastPeriod, packetsByPeriod);
        packets := packets[lastPeriod := period];
      }
    }

    // Opens the next period when the last one is old enough, and the first one.
    method Arrive(now: int) returns (dur: int)
      requires Valid()
      modifies this`lastPoint, this`lastPeriod, this`packets
      ensures Valid() && lastPeriod == old(Target(now)) && lastPeriod in packets && fresh(Periods() - old(Periods()))
      ensures forall k :: k in old(packets) ==> k in packets && packets[k] == old(packets[k])
      ensures lastPeriod !in old(packets) ==>
                packets[lastPeriod].lastPacket == 0 && packets[lastPeriod].losses == -1 && packets[lastPeriod].received == []
      ensures lastPoint == old(Since(now)) && dur == Seconds(now - lastPoint)
    {
      if lastPoint == 0 {
        lastPoint := now;
      }
      dur := Seconds(now - lastPoint);
      if dur >= evaluatePeriod {
        lastPeriod := lastPeriod + 1;
      }
      TryEmplace();
    }

    // How many packets the period k has taken, and which of them count.
    ghost function Taken(k: int): nat
      reads `packets, Periods()
    {
      if k in packets then packets[k].lastPacket else 0
    }

    ghost function Received(k: int): seq<int>
      reads `packets, Periods()
    {
      if k in packets then packets[k].received else []
    }

    // `now` and `later` are the two readings of the clock. A packet for a full
    // period is written past its end.
    method OnPacketReceived(serial: int, now: int, later: int) returns (fits: bool)
      requires Valid()
      modifies this, Periods()
      ensures Valid() && lastPeriod == old(Target(now)) && lastPeriod in packets
      ensures fits <==> old(Taken(Target(now))) < packetsByPeriod
      ensures forall k :: k in old(packets) ==> k in packets && packets[k] == old(packets[k])
      ensures forall k :: k in old(packets) && k != lastPeriod ==> packets[k].received == old(packets[k].received)
      ensures fits ==> packets[lastPeriod].lastPacket == old(Taken(Target(now))) + 1
      ensures fits && packets[lastPeriod].losses == -1 ==> packets[lastPeriod].received == old(Received(Target(now))) + [serial]
      ensures lastPoint == if lastPeriod > old(lastPeriod) then later else old(Since(now))
    {
      hide PeriodsValid;
      var dur := Arrive(now);
      fits := AddTo(lastPeriod, serial);
      if dur >= evaluatePeriod {
        lastPoint := later;
      }
    }

    ghost function Records(): map<int, Record>
      reads `packets, Periods()
    {
      map k | k in packets :: Record(packets[k].received, packets[k].lastPacket, packets[k].losses)
    }

    // The next period's share; two keys never share a period.
    method Ask(k: nat) returns (total: int, loss: int)
      requires Valid() && k in packets
      modifies packets[k]
      ensures Valid() && total == packetsByPeriod && 0 <= loss <= total
      ensures Records() == old(Records())[k := Asked(old(Records())[k], k, packetsByPeriod)]
      ensures Answered(Records(), packetsByPeriod, k, loss)
    {
      hide Missing;
      assert packets[k].number == k && packets[k].size == packetsByPeriod;
      assert forall j :: j in packets && j != k ==> packets[j] != packets[k];
      total := packets[k].GetTotal();
      loss := packets[k].GetLoss();
      assert Records().Keys == old(Records()).Keys;
    }

    lemma PeriodCount()
      requires Valid()
      ensures |packets| == if packets == map[] then 0 else lastPeriod + 1 - FirstKey()
    {
      if packets != map[] {
        KeyCount(packets.Keys, FirstKey(), lastPeriod + 1);
      }
    }

    // The last `count` periods answered with `losses`; the others were not asked,
    // and nothing else changed.
    ghost predicate Evaluated(before: map<int, Record>, count: nat, losses: seq<int>)
      reads this, Periods()
    {
      && |losses| == count <= lastPeriod + 1
      && Records() == AskedFrom(before, packetsByPeriod, lastPeriod + 1 - count, lastPeriod + 1)
      && Answers(Records(), packetsByPeriod, lastPeriod + 1 - count, losses)
    }

    // What those losses are in percent. There is no percentage of nothing: the
    // source divides zero by zero.
    ghost predicate IsPercentage(percent: Option<int>, count: nat, losses: seq<int>) {
      var total := count * packetsByPeriod;
      0 <= Sum(losses) <= total && percent == if total == 0 then None else Some(Percent(Sum(losses), total))
    }

    // The loss over the last `count` periods, in percent.
    method CalcLoss(count: nat) returns (percent: Option<int>, ghost losses: seq<int>)
      requires Valid() && count <= |packets|
      modifies Periods()
      ensures Valid() && Evaluated(old(Records()), count, losses)
      ensures IsPercentage(percent, count, losses)
    {
      hide PeriodsValid;
      var total, loss;
      total, loss, losses := Accumulate(count);
      percent := if total == 0 then None else Some(Percent(loss, total));
    }

    // The periods from `first` up to `end` have answered; what they lost adds up.
    ghost predicate Summed(before: map<int, Record>, first: nat, end: nat, losses: seq<int>, total: int, loss: int)
      reads this, Periods()
    {
      && Valid() && end == first + |losses| && before.Keys == packets.Keys
      && Records() == AskedFrom(before, packetsByPeriod, first, end) && Answers(Records(), packetsByPeriod, first, losses)
      && total == |losses| * packetsByPeriod && loss == Sum(losses)
      && forall i :: 0 <= i < |losses| ==> 0 <= losses[i] <= packetsByPeriod
    }

    lemma QueryStarts(count: nat)
      requires Valid() && count <= |packets|
      ensures count <= lastPeriod + 1 && forall k :: lastPeriod + 1 - count <= k <= lastPeriod ==> k in packets
      ensures Summed(Records(), lastPeriod + 1 - count, lastPeriod + 1 - count, [], 0, 0)
    {
      hide Asked;
      PeriodCount();
      var first := lastPeriod + 1 - count;
      assert AskedFrom(Records(), packetsByPeriod, first, first) == Records();
    }

    method AskNext(end: nat, total: int, loss: int, ghost before: map<int, Record>, ghost first: nat, ghost losses: seq<int>)
      returns (total': int, loss': int, ghost losses': seq<int>)
      requires Summed(before, first, end, losses, total, loss) && end in packets
      modifies packets[end]
      ensures Summed(before, first, end + 1, losses', total', loss')
    {
      hide Sum, Missing, PeriodsValid, Asked, AskedFrom, Answers, Answered;
      ghost var now := Records();
      var t, l := Ask(end);
      OneMore(before, now, Records(), packetsByPeriod, first, end, losses, l);
      SumAppend(losses, l);
      MulDistribute(|losses|, 1, packetsByPeriod);
      total', loss', losses' := total + t, loss + l, losses + [l];
    }

    // The loop over the last `count` periods.
    method Accumulate(count: nat) returns (total: int, loss: int, ghost losses: seq<int>)
      requires Valid() && count <= |packets|
      modifies Periods()
      ensures Valid() && Evaluated(old(Records()), count, losses)
      ensures total == count * packetsByPeriod && loss == Sum(losses) && 0 <= loss <= total
    {
      hide Sum, Summed, Valid, Records, Evaluated;
      QueryStarts(count);
      total, loss, losses := 0, 0, [];
      var first, end := lastPeriod + 1 - count, lastPeriod + 1 - count;
      while end < lastPeriod + 1
        invariant first <= end <= lastPeriod + 1 && Summed(old(Records()), first, end, losses, total, loss)
      {
        total, loss, losses := AskNext(end, total, loss, old(Records()), first, losses);
        end := end + 1;
      }
      AllSummed(old(Records()), first, losses, total, loss);
      assert lastPeriod + 1 - first == count;
    }

    lemma AllSummed(before: map<int, Record>, first: nat, losses: seq<int>, total: int, loss: int)
      requires first <= lastPeriod + 1 && Summed(before, first, lastPeriod + 1, losses, total, loss)
      ensures Valid() && |losses| == lastPeriod + 1 - first && Evaluated(before, |losses|, losses)
      ensures total == |losses| * packetsByPeriod && loss == Sum(losses) && 0 <= loss <= total
    {
      hide AskedFrom, Answers, Records, Sum, PeriodsValid;
      SumBound(losses, packetsByPeriod);
    }

    // The size is compared as an unsigned number, so a negative period counts
    // as a huge one: then, as before there are enough periods, nothing is lost.
    method GetCurrentLoss() returns (percent: Option<int>, ghost losses: seq<int>)
      requires Valid() && lastPeriod < INT_MAX
      requires -0x8000_0000_0000_0000 <= currentPeriod < 0x8000_0000_0000_0000
      modifies Periods()
      ensures Valid() && (percent == None || 0 <= percent.value <= 100)
      ensures Evaluated(old(Records()), if 0 <= currentPeriod <= |packets| then currentPeriod else 0, losses)
      ensures !(0 <= currentPeriod <= |packets|) ==> percent == Some(0)
      ensures 0 <= currentPeriod <= |packets| ==>
                && IsPercentage(percent, currentPeriod, losses)
                && (percent == None <==> currentPeriod == 0 || packetsByPeriod == 0)
    {
      PeriodCount();
      if |packets| < if currentPeriod < 0 then currentPeriod + U64 else currentPeriod {
        return Some(0), [];
      }
      MulZero(currentPeriod, packetsByPeriod);
      hide Evaluated, PeriodsValid, Percent;
      percent, losses := CalcLoss(currentPeriod);
      if percent.Some? {
        PercentBound(Sum(losses), currentPeriod * packetsByPeriod);
      }
    }

    // The loss over all periods.
    method GetAverageLoss() returns (percent: Option<int>, ghost losses: seq<int>)
      requires Valid()
      modifies Periods()
      ensures Valid() && (percent == None || 0 <= percent.value <= 100)
      ensures Evaluated(old(Records()), |packets|, losses)
      ensures IsPercentage(percent, |packets|, losses)
      ensures percent == None <==> packets == map[] || packetsByPeriod == 0
    {
      MulZero(|packets|, packetsByPeriod);
      hide Evaluated, PeriodsValid, Percent;
      percent, losses := CalcLoss(|packets|);
      if percent.Some? {
        PercentBound(Sum(losses), |packets| * packetsByPeriod);
      }
    }
  }

  lemma MulZero(a: nat, b: nat)
    ensures a * b == 0 <==> a == 0 || b == 0
  {
    if a > 0 && b > 0 {
      MulPositive(a, b);
    }
  }
}
