// Prime numbers, as far as a sieve needs them.
module PrimeNumbers {
  import opened Powers

  ghost predicate Divides(d: nat, n: nat)
    requires d > 0
  {
    n % d == 0
  }

  ghost predicate IsPrime(n: nat) {
    2 <= n && forall d: nat :: 2 <= d < n ==> !Divides(d, n)
  }

  // m is a multiple of n that the sieve strikes out for n.
  ghost predicate Struck(n: nat, m: nat) {
    2 <= n && 2 * n <= m && Divides(n, m)
  }

  lemma StruckIsComposite(n: nat, m: nat)
    requires Struck(n, m)
    ensures !IsPrime(m)
  {
    assert 2 <= n < m && Divides(n, m);
  }

  // The least divisor of a composite number is prime, not above its square
  // root, and strikes the number out.
  lemma {:induction false} SmallPrimeFactor(k: nat) returns (p: nat)
    requires 2 <= k && !IsPrime(k)
    ensures IsPrime(p) && p * p <= k && Struck(p, k)
  {
    var d: nat :| 2 <= d < k && Divides(d, k);
    p := 2;
    while !Divides(p, k)
      invariant 2 <= p <= d
      invariant forall c: nat :: 2 <= c < p ==> !Divides(c, k)
      decreases d - p
    {
      p := p + 1;
    }
    Cofactor(p, k);
    MulLe(p, k / p, p);
    MulLe(2, k / p, p);
    forall c: nat | 2 <= c < p
      ensures !Divides(c, p)
    {
      if Divides(c, p) {
        DividesTransitive(c, p, k);
      }
    }
  }

  lemma Cofactor(p: nat, k: nat)
    requires 2 <= p < k && Divides(p, k)
    ensures k == p * (k / p) && 2 <= k / p < k && Divides(k / p, k)
  {
    var q := k / p;
    assert k == q * p;
    MulLe(2, p, q);
    DivModUnique(k, q, p, 0);
  }

  lemma DividesTransitive(d: nat, p: nat, k: nat)
    requires d > 0 && p > 0 && Divides(d, p) && Divides(p, k)
    ensures Divides(d, k)
  {
    var a, b := p / d, k / p;
    assert p == a * d && k == b * p;
    MulAssoc(b, a, d);
    MulLe(0, b, a);
    DivModUnique(k, d, b * a, 0);
  }

  // The next multiple of n, and nothing in between.
  lemma MultiplesStep(n: nat, j: nat, m: nat)
    requires n > 0 && Divides(n, j) && j <= m < j + n && Divides(n, m)
    ensures m == j
  {
    var a, b := j / n, m / n;
    assert j == a * n && m == b * n;
    BetweenMultiples(a, b, n);
  }

  lemma BetweenMultiples(a: nat, b: nat, n: nat)
    requires a * n <= b * n < a * n + n
    ensures a == b
  {
    MulDistribute(b, a, n);
    MulDistribute(a, b, n);
    if b > a {
      MulLe(1, b - a, n);
    } else if a > b {
      MulLe(1, a - b, n);
    }
  }

  lemma NextMultiple(n: nat, j: nat)
    requires n > 0 && Divides(n, j)
    ensures Divides(n, j + n)
  {
    var a := j / n;
    MulDistribute(a, 1, n);
    DivModUnique(j + n, n, a + 1, 0);
  }
}
