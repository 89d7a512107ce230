// The 128-bit sum that squaring uses where the machine has no such integer:
// two 64-bit halves.
module AccumulatorModel {
  import opened Words
  import opened Powers
  import opened Limbs
  import opened BigintSteps
  import opened Convolution

  // The low bigit of the upper half becomes the high one of the lower half.
  lemma HalvesShift(upper: nat, lower: nat)
    requires upper < U64 && lower < U64
    ensures upper * BASE % U64 + lower / BASE < U64
    ensures upper / BASE * U64 + (upper * BASE % U64 + lower / BASE) == (upper * U64 + lower) / BASE
  {
    var q, r := upper / BASE, upper % BASE;
    assert upper == q * BASE + r;
    DivModUnique(upper * BASE, U64, q, r * BASE);
    DivModUnique(upper * U64 + lower, BASE, upper * BASE + lower / BASE, lower % BASE);
  }

  class Accumulator {
    var lower: nat
    var upper: nat

    ghost predicate Valid()
      reads this
    {
      lower < U64 && upper < U64
    }

    ghost function Total(): nat
      reads this
    {
      upper * U64 + lower
    }

    constructor ()
      ensures Valid() && Total() == 0
    {
      lower, upper := 0, 0;
    }

    // The carry of the lower half is seen by comparing the wrapped sum.
    method Add(n: nat)
      requires Valid() && n < U64 && Total() + n < U64 * U64
      modifies this
      ensures Valid() && Total() == old(Total()) + n
    {
      lower := (lower + n) % U64;
      if lower < n {
        upper := upper + 1;
      }
    }

    method ShiftRightByBigit()
      requires Valid()
      modifies this
      ensures Valid() && Total() == old(Total()) / BASE
    {
      HalvesShift(upper, lower);
      lower := upper * BASE % U64 + lower / BASE;
      upper := upper / BASE;
    }

    function LowBigit(): (b: Bigit)
      reads this
      ensures b as int == Total() % BASE
    {
      DivModUnique(Total(), BASE, upper * BASE + lower / BASE, lower % BASE);
      lower % BASE
    }

    // Adds the products of anti-diagonal k of n.
    method AddDiagonal(n: seq<Bigit>, k: nat)
      requires Valid() && |n| <= 0x7fff_ffff && k < 2 * |n| && Total() <= |n| * BASE
      modifies this
      ensures Valid() && Total() == old(Total()) + Cross(n, k, |n|)
    {
      ghost var carry := Total();
      if k < |n| {
        var i, j := 0, k;
        while j >= 0
          invariant 0 <= i <= k + 1 && i + j == k
          invariant Valid() && Total() == carry + Cross(n, k, i)
        {
          AccumulatorBound(n, k, carry, i + 1);
          ProductBound(n[i], n[j], BASE - 1);
          Add(n[i] as nat * n[j] as nat);
          i, j := i + 1, j - 1;
        }
        CrossOutside(n, k, k + 1, |n|);
      } else {
        var j := |n| - 1;
        var i := k - j;
        CrossOutside(n, k, 0, i);
        while i < |n|
          invariant k - |n| + 1 <= i <= |n| && i + j == k
          invariant Valid() && Total() == carry + Cross(n, k, i)
        {
          AccumulatorBound(n, k, carry, i + 1);
          ProductBound(n[i], n[j], BASE - 1);
          Add(n[i] as nat * n[j] as nat);
          i, j := i + 1, j - 1;
        }
      }
    }
  }
}
