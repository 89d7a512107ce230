// The detector object: its loops over the bit array, run by one thread. The
// interleavings of many threads are the subject of Sieve and PrimeSearch.
module DetectorModel {
  import opened Words
  import opened Powers
  import opened PrimeNumbers

  class Detector {
    const maxNumber: nat
    const portion: nat
    const limit: nat
    const numbers: array<bool>
    var asyncCount: nat

    ghost predicate Valid()
      reads this
    {
      numbers.Length == maxNumber + 1
    }

    constructor (maxNumber: nat, portion: nat, limit: nat)
      ensures Valid() && fresh(numbers) && this.maxNumber == maxNumber && asyncCount == 0
      ensures this.portion == portion && this.limit == limit
      ensures forall k :: 0 <= k <= maxNumber ==> numbers[k]
    {
      this.maxNumber, this.portion, this.limit := maxNumber, portion, limit;
      numbers := new bool[maxNumber + 1](_ => true);
      asyncCount := 0;
    }

    // Strikes out the multiples of `number`, and touches nothing else.
    method BuildFor(number: nat)
      requires Valid() && 2 <= number
      modifies numbers, this`asyncCount
      ensures asyncCount == old(asyncCount)
      ensures forall k: nat :: k <= maxNumber ==> (numbers[k] <==> old(numbers[k]) && !Struck(number, k))
    {
      asyncCount := asyncCount + 1;
      var j := number * 2;
      DivModUnique(j, number, 2, 0);
      while j <= maxNumber
        invariant asyncCount == old(asyncCount) + 1
        invariant 2 * number <= j && Divides(number, j)
        invariant forall k: nat :: k <= maxNumber ==> (numbers[k] <==> old(numbers[k]) && !(k < j && Struck(number, k)))
        decreases maxNumber - j
      {
        forall m: nat | j <= m < j + number && Divides(number, m)
          ensures m == j
        {
          MultiplesStep(number, j, m);
        }
        NextMultiple(number, j);
        numbers[j] := false;
        j := j + number;
      }
      asyncCount := asyncCount - 1;
    }

    // The building loop, with each job run to its end where it is started.
    method Build()
      requires Valid() && forall k: nat :: k <= maxNumber ==> numbers[k]
      modifies numbers, this`asyncCount
      ensures asyncCount == old(asyncCount)
      ensures forall k: nat :: 2 <= k <= maxNumber ==> (numbers[k] <==> PrimeNumbers.IsPrime(k))
    {
      var i := 2;
      while i * i <= maxNumber
        invariant 2 <= i && asyncCount == old(asyncCount)
        invariant forall k: nat :: k <= maxNumber && !numbers[k] ==> !PrimeNumbers.IsPrime(k)
        invariant forall p: nat, k: nat :: PrimeNumbers.IsPrime(p) && p < i && k <= maxNumber && Struck(p, k) ==> !numbers[k]
        decreases maxNumber + 1 - i
      {
        MulLe(1, i, i);
        if numbers[i] {
          forall k: nat | Struck(i, k)
            ensures !PrimeNumbers.IsPrime(k)
          {
            StruckIsComposite(i, k);
          }
          BuildFor(i);
        }
        i := i + 1;
      }
      forall k: nat | 2 <= k <= maxNumber && !PrimeNumbers.IsPrime(k)
        ensures !numbers[k]
      {
        var p := SmallPrimeFactor(k);
        if i <= p {
          MulLe(i, p, i);
          MulLe(i, p, p);
        }
      }
    }

    method IsPrime(number: nat) returns (found: bool)
      requires Valid() && 2 <= maxNumber < INT_MAX
      modifies this`asyncCount
      ensures found <==> 2 <= number <= maxNumber && numbers[number]
      ensures asyncCount == old(asyncCount)
    {
      found := IsPrimeFor(number, 2, maxNumber);
    }

    // The search, with the handed-over half run before the other one.
    method IsPrimeFor(number: nat, start: nat, end: nat) returns (found: bool)
      requires Valid() && start <= end <= maxNumber < INT_MAX
      modifies this`asyncCount
      ensures found <==> start <= number <= end && numbers[number]
      ensures asyncCount == old(asyncCount)
      decreases limit - asyncCount
    {
      var len := end - start;
      if len < portion || asyncCount >= limit {
        var i := start;
        while i <= end
          invariant start <= i <= end + 1
          invariant !(start <= number < i && numbers[number])
        {
          if numbers[i] {
            if i == number {
              return true;
            }
          }
          i := i + 1;
        }
        return false;
      }
      var mid := start + len / 2;
      asyncCount := asyncCount + 1;
      var upper := IsPrimeFor(number, mid, end);
      found := IsPrimeFor(number, start, mid);
      found := found || upper;
      asyncCount := asyncCount - 1;
    }
  }
}
