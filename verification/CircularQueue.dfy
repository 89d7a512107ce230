// The ring buffer over a fixed array: one cell stays free to tell a full ring
// from an empty one, and a push into a full ring drops the oldest item.
module CircularQueueModel {

  datatype Departure<T> = Popped(item: T) | Overrun(item: T)

  // What a push does to the items of a queue that holds at most `capacity`.
  function Pushed<T>(capacity: nat, items: seq<T>, item: T): (r: seq<T>)
    requires |items| <= capacity
    ensures |r| <= capacity
  {
    if |items| < capacity then items + [item] else (items + [item])[1..]
  }

  // The cells from `head` to `tail`, round the end of the array.
  ghost function Ring<T>(cells: seq<T>, head: nat, tail: nat): seq<T>
    requires head <= |cells| && tail <= |cells|
  {
    if head <= tail then cells[head..tail] else cells[head..] + cells[..tail]
  }

  ghost function After(i: nat, n: nat): nat
    requires i < n
  {
    if i + 1 == n then 0 else i + 1
  }

  lemma ModIsAfter(i: nat, n: nat)
    requires i < n
    ensures (i + 1) % n == After(i, n)
  {
  }

  lemma ModIsWrap(i: nat, n: nat)
    requires i < 2 * n
    ensures i % n == if i < n then i else i - n
  {
    if i >= n {
      assert i == n + (i - n);
    }
  }

  lemma RingPush<T>(cells: seq<T>, head: nat, tail: nat, item: T)
    requires head < |cells| && tail < |cells| && After(tail, |cells|) != head
    ensures Ring(cells[tail := item], head, After(tail, |cells|)) == Ring(cells, head, tail) + [item]
  {
    var n := |cells|;
    var cells' := cells[tail := item];
    if tail + 1 == n {
      assert Ring(cells', head, 0) == cells'[head..] + cells'[..0];
      assert cells'[head..] == cells[head..tail] + [item];
    } else if head <= tail {
      assert cells'[head..tail + 1] == cells[head..tail] + [item];
    } else {
      assert cells'[..tail + 1] == cells[..tail] + [item];
      assert cells'[head..] == cells[head..];
    }
  }

  lemma RingPop<T>(cells: seq<T>, head: nat, tail: nat)
    requires head < |cells| && tail < |cells| && head != tail
    ensures var items := Ring(cells, head, tail);
            items != [] && items[0] == cells[head] && Ring(cells, After(head, |cells|), tail) == items[1..]
  {
    if head < tail {
      SliceHead(cells, head, tail, []);
    } else if head + 1 == |cells| {
      SliceHead(cells, head, |cells|, cells[..tail]);
      assert cells[0..tail] == cells[..tail];
    } else {
      SliceHead(cells, head, |cells|, cells[..tail]);
    }
  }

  lemma SliceHead<T>(s: seq<T>, i: nat, j: nat, rest: seq<T>)
    requires i < j <= |s|
    ensures s[i..j][1..] == s[i + 1..j] && s[i..j][0] == s[i]
    ensures (s[i..j] + rest)[1..] == s[i + 1..j] + rest && (s[i..j] + rest)[0] == s[i]
    ensures i + 1 == j ==> (s[i..j] + rest)[1..] == rest
  {
  }

  // The cell written is the free one; if that fills the ring, the oldest item's
  // cell becomes the free one.
  lemma RingOverrunningPush<T>(cells: seq<T>, head: nat, tail: nat, item: T)
    requires head < |cells| && tail < |cells|
    ensures var n, items, tail' := |cells|, Ring(cells, head, tail), After(tail, |cells|);
            && |items| < n && (|items| == n - 1 <==> tail' == head)
            && Ring(cells[tail := item], if tail' == head then After(head, n) else head, tail') == Pushed(n - 1, items, item)
  {
    if After(tail, |cells|) != head {
      RingPush(cells, head, tail, item);
    } else if head != tail {
      RingPop(cells, head, tail);
      RingPush(cells, After(head, |cells|), tail, item);
    }
  }

  ghost function Items<T>(departed: seq<Departure<T>>): seq<T> {
    seq(|departed|, i requires 0 <= i < |departed| => departed[i].item)
  }

  ghost function Overruns<T>(departed: seq<Departure<T>>): nat {
    if departed == [] then 0
    else Overruns(departed[..|departed| - 1]) + if departed[|departed| - 1].Overrun? then 1 else 0
  }

  ghost function PoppedItems<T>(departed: seq<Departure<T>>): seq<T> {
    if departed == [] then []
    else PoppedItems(departed[..|departed| - 1]) + if departed[|departed| - 1].Popped? then [departed[|departed| - 1].item] else []
  }

  lemma {:induction false} DeparturesAreCounted<T>(departed: seq<Departure<T>>)
    ensures |departed| == |PoppedItems(departed)| + Overruns(departed)
  {
    if departed != [] {
      DeparturesAreCounted(departed[..|departed| - 1]);
    }
  }

  // Everything pushed has left, in order, or is still among the items.
  ghost predicate History<T>(pushed: seq<T>, departed: seq<Departure<T>>, items: seq<T>, overruns: nat) {
    pushed == Items(departed) + items && overruns == Overruns(departed)
  }

  lemma HistoryPush<T>(pushed: seq<T>, departed: seq<Departure<T>>, items: seq<T>, overruns: nat, item: T)
    requires History(pushed, departed, items, overruns)
    ensures History(pushed + [item], departed, items + [item], overruns)
  {
  }

  ghost function Departed<T>(capacity: nat, items: seq<T>, departed: seq<Departure<T>>, item: T): seq<Departure<T>> {
    if |items| < capacity then departed else departed + [Overrun((items + [item])[0])]
  }

  lemma HistoryOverrunningPush<T>(pushed: seq<T>, departed: seq<Departure<T>>, items: seq<T>, overruns: nat, capacity: nat, item: T)
    requires History(pushed, departed, items, overruns) && |items| <= capacity
    ensures History(pushed + [item], Departed(capacity, items, departed, item), Pushed(capacity, items, item),
                    if |items| < capacity then overruns else overruns + 1)
  {
    HistoryPush(pushed, departed, items, overruns, item);
    if |items| == capacity {
      HistoryLeave(pushed + [item], departed, items + [item], overruns, Overrun((items + [item])[0]));
    }
  }

  lemma HistoryLeave<T>(pushed: seq<T>, departed: seq<Departure<T>>, items: seq<T>, overruns: nat, left: Departure<T>)
    requires History(pushed, departed, items, overruns) && items != [] && left.item == items[0]
    ensures History(pushed, departed + [left], items[1..], if left.Overrun? then overruns + 1 else overruns)
  {
    assert (departed + [left])[..|departed|] == departed;
    assert Items(departed + [left]) == Items(departed) + [items[0]];
    assert items == [items[0]] + items[1..];
  }

  class CircularQueue<T(0)> {
    var maxItems: nat
    var head: nat
    var tail: nat
    var overrunCounter: nat
    var cells: array<T>
    // Everything ever pushed, and how whatever left the queue left it.
    ghost var pushed: seq<T>
    ghost var departed: seq<Departure<T>>

    ghost predicate Valid()
      reads this, cells
    {
      && (if maxItems == 0 then head == tail == 0 else cells.Length == maxItems && head < maxItems && tail < maxItems)
      && History(pushed, departed, Contents(), overrunCounter)
    }

    ghost function Contents(): seq<T>
      reads this, cells
    {
      if head <= cells.Length && tail <= cells.Length then Ring(cells[..], head, tail) else []
    }

    // The number of items that fit.
    ghost function Capacity(): int
      reads this
    {
      maxItems - 1
    }

    constructor Disabled()
      ensures Valid() && fresh(cells) && maxItems == 0 && Contents() == [] && overrunCounter == 0
      ensures pushed == [] && departed == []
    {
      maxItems, head, tail, overrunCounter, pushed, departed := 0, 0, 0, 0, [], [];
      cells := new T[0];
    }

    constructor (capacity: nat)
      ensures Valid() && fresh(cells) && Capacity() == capacity && Contents() == [] && overrunCounter == 0
      ensures pushed == [] && departed == []
    {
      maxItems, head, tail, overrunCounter, pushed, departed := capacity + 1, 0, 0, 0, [], [];
      cells := new T[capacity + 1];
    }

    // The items number at most Capacity.
    lemma SizeBound()
      requires Valid() && maxItems > 0
      ensures |Contents()| <= Capacity()
      ensures |Contents()| == Capacity() <==> After(tail, maxItems) == head
      ensures |Contents()| == 0 <==> head == tail
    {
    }

    method PushBack(item: T)
      requires Valid()
      modifies this, cells
      ensures Valid() && cells == old(cells) && maxItems == old(maxItems)
      ensures maxItems == 0 ==> pushed == old(pushed) && departed == old(departed) && Contents() == old(Contents())
      ensures maxItems > 0 ==> |old(Contents())| <= Capacity() && pushed == old(pushed) + [item]
      ensures maxItems > 0 ==> Contents() == Pushed(Capacity(), old(Contents()), item)
      ensures maxItems > 0 ==> departed == Departed(Capacity(), old(Contents()), old(departed), item)
      ensures overrunCounter == old(overrunCounter) + if maxItems > 0 && |old(Contents())| == Capacity() then 1 else 0
    {
      if maxItems > 0 {
        ghost var cells0, head0, tail0, items := cells[..], head, tail, Contents();
        RingOverrunningPush(cells0, head0, tail0, item);
        HistoryOverrunningPush(pushed, departed, items, overrunCounter, maxItems - 1, item);
        Store(item);
        pushed, departed := pushed + [item], Departed(maxItems - 1, items, departed, item);
        assert Contents() == Pushed(maxItems - 1, items, item);
      }
    }

    // The writes of an enabled push.
    method Store(item: T)
      requires maxItems > 0 && cells.Length == maxItems && head < maxItems && tail < maxItems
      modifies this`tail, this`head, this`overrunCounter, cells
      ensures cells[..] == old(cells[..])[old(tail) := item]
      ensures tail == After(old(tail), maxItems)
      ensures head == if tail == old(head) then After(old(head), maxItems) else old(head)
      ensures overrunCounter == old(overrunCounter) + if tail == old(head) then 1 else 0
    {
      cells[tail] := item;
      ModIsAfter(tail, maxItems);
      tail := (tail + 1) % maxItems;
      if tail == head {
        ModIsAfter(head, maxItems);
        head := (head + 1) % maxItems;
        overrunCounter := overrunCounter + 1;
      }
    }

    method Front() returns (item: T)
      requires Valid() && Contents() != []
      ensures item == Contents()[0]
    {
      RingPop(cells[..], head, tail);
      item := cells[head];
    }

    method PopFront()
      requires Valid() && Contents() != []
      modifies this
      ensures Valid() && cells == old(cells) && maxItems == old(maxItems) && pushed == old(pushed)
      ensures Contents() == old(Contents())[1..]
      ensures departed == old(departed) + [Popped(old(Contents())[0])]
      ensures overrunCounter == old(overrunCounter)
    {
      ghost var cells0, items := cells[..], Contents();
      RingPop(cells0, head, tail);
      HistoryLeave(pushed, departed, items, overrunCounter, Popped(cells[head]));
      departed := departed + [Popped(cells[head])];
      ModIsAfter(head, maxItems);
      head := (head + 1) % maxItems;
      assert cells[..] == cells0;
      assert Contents() == items[1..];
    }

    method At(i: nat) returns (item: T)
      requires Valid() && i < |Contents()|
      ensures item == Contents()[i]
    {
      ModIsWrap(head + i, maxItems);
      item := cells[(head + i) % maxItems];
    }

    method Size() returns (n: nat)
      requires Valid()
      ensures n == |Contents()|
    {
      if tail >= head {
        n := tail - head;
      } else {
        n := maxItems - (head - tail);
      }
    }

    method Empty() returns (b: bool)
      requires Valid()
      ensures b <==> Contents() == []
    {
      b := tail == head;
    }

    // A disabled queue is never full, although nothing fits into it.
    method Full() returns (b: bool)
      requires Valid()
      ensures b <==> maxItems > 0 && |Contents()| == Capacity()
    {
      if maxItems > 0 {
        SizeBound();
        ModIsAfter(tail, maxItems);
        b := (tail + 1) % maxItems == head;
      } else {
        b := false;
      }
    }

    // Takes everything over from `other` and leaves it disabled; moved onto
    // itself, a queue is disabled.
    method MoveFrom(other: CircularQueue<T>)
      requires Valid() && other.Valid()
      modifies this, other
      ensures Valid() && other.Valid()
      ensures other != this ==> fresh(other.cells) && cells == old(other.cells)
      ensures other != this ==> Contents() == old(other.Contents()) && maxItems == old(other.maxItems)
      ensures other != this ==> overrunCounter == old(other.overrunCounter)
      ensures other != this ==> pushed == old(other.pushed) && departed == old(other.departed)
      ensures other.maxItems == 0 && other.Contents() == [] && other.overrunCounter == 0
    {
      ghost var cells0, items := other.cells[..], other.Contents();
      maxItems, head, tail, overrunCounter, cells := other.maxItems, other.head, other.tail, other.overrunCounter, other.cells;
      pushed, departed := other.pushed, other.departed;
      other.Disable();
      if other != this {
        assert cells[..] == cells0;
        assert Contents() == items;
      }
    }

    // A queue that can hold nothing.
    method Disable()
      modifies this
      ensures Valid() && fresh(cells)
      ensures maxItems == 0 && Contents() == [] && overrunCounter == 0
    {
      cells := new T[0];
      maxItems, head, tail, overrunCounter := 0, 0, 0, 0;
      pushed, departed := [], [];
    }

    // At every moment: whatever was pushed was popped, overrun or is still here,
    // and it left in the order it came.
    lemma Conservation()
      requires Valid()
      ensures |pushed| == |PoppedItems(departed)| + overrunCounter + |Contents()|
      ensures Items(departed) <= pushed && Contents() == pushed[|departed|..]
    {
      DeparturesAreCounted(departed);
    }
  }
}
