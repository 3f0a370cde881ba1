/** Divisibility and primality, shared by the factoring, sieving and hashing modules. */
module Numbers {

  predicate Divides(d: int, n: int)
    requires d > 0
  {
    n % d == 0
  }

  ghost predicate IsPrime(p: int) {
    p >= 2 && forall d :: 2 <= d < p ==> !Divides(d, p)
  }

  /** `d` is the smallest divisor of `n` other than 1. */
  ghost predicate LeastDivisor(d: int, n: int) {
    && d >= 2
    && Divides(d, n)
    && forall e :: 2 <= e < d ==> !Divides(e, n)
  }

  lemma MulMono(a: int, b: int, c: int)
    requires a >= 0 && b <= c
    ensures a * b <= a * c
  {
  }

  /** The quotient and remainder are determined by their defining property. */
  lemma DivModUnique(n: int, d: int, q: int, r: int)
    requires d > 0 && n == d * q + r && 0 <= r < d
    ensures n / d == q && n % d == r
  {
    var k := n / d - q;
    assert d * k == r - n % d by {
      assert d * k == d * (n / d) - d * q;
    }
    assert k >= 1 ==> d * k >= d;
    assert k <= -1 ==> d * k <= -d;
  }

  lemma ModShift(n: int, d: int, k: int)
    requires d > 0
    ensures (n + d * k) % d == n % d
  {
    DivModUnique(n + d * k, d, n / d + k, n % d);
  }

  lemma MultipleDivides(d: int, k: int)
    requires d > 0
    ensures Divides(d, d * k)
  {
    DivModUnique(d * k, d, k, 0);
  }

  lemma DividesCombination(d: int, a: int, x: int, b: int, y: int)
    requires d > 0 && Divides(d, a) && Divides(d, b)
    ensures Divides(d, a * x + b * y)
  {
    var q := (a / d) * x + (b / d) * y;
    assert a * x == d * ((a / d) * x);
    assert b * y == d * ((b / d) * y);
    assert a * x + b * y == d * q;
    MultipleDivides(d, q);
  }

  lemma DividesSum(d: int, a: int, b: int)
    requires d > 0 && Divides(d, a) && Divides(d, b)
    ensures Divides(d, a + b)
  {
    DividesCombination(d, a, 1, b, 1);
  }

  lemma DividesDifference(d: int, a: int, b: int)
    requires d > 0 && Divides(d, a) && Divides(d, b)
    ensures Divides(d, a - b)
  {
    DividesCombination(d, a, 1, b, -1);
  }

  lemma DividesTransitive(c: int, d: int, n: int)
    requires c > 0 && d > 0 && Divides(c, d) && Divides(d, n)
    ensures Divides(c, n)
  {
    assert n == d * (n / d);
    DividesCombination(c, d, n / d, d, 0);
  }

  lemma DivisorBound(d: int, n: int)
    requires d > 0 && n > 0 && Divides(d, n)
    ensures d <= n
  {
    assert n == d * (n / d);
    if d > n {
      DivModUnique(n, d, 0, n);
    }
  }

  lemma ExactQuotient(d: int, n: int)
    requires d >= 2 && n >= 1 && Divides(d, n)
    ensures d * (n / d) == n && 1 <= n / d < n
  {
    var q := n / d;
    assert d * q == n;
    assert q <= 0 ==> d * q <= 0;
    MulMono(q, 2, d);
  }

  lemma LeastDivisorIsPrime(d: int, n: int)
    requires LeastDivisor(d, n)
    ensures IsPrime(d)
  {
    forall e | 2 <= e < d
      ensures !Divides(e, d)
    {
      if Divides(e, d) {
        DividesTransitive(e, d, n);
      }
    }
  }

  lemma {:induction false} LeastDivisorFrom(n: int, from: int) returns (d: int)
    requires 2 <= from <= n
    requires forall e :: 2 <= e < from ==> !Divides(e, n)
    ensures LeastDivisor(d, n) && d <= n
    decreases n - from
  {
    if from == n {
      MultipleDivides(n, 1);
    }
    if Divides(from, n) {
      d := from;
    } else {
      d := LeastDivisorFrom(n, from + 1);
    }
  }

  lemma LeastDivisorExists(n: int) returns (d: int)
    requires n >= 2
    ensures LeastDivisor(d, n) && d <= n
  {
    d := LeastDivisorFrom(n, 2);
  }

  /** A composite number has a prime divisor no greater than its square root. */
  lemma CompositeHasSmallDivisor(n: int) returns (d: int)
    requires n >= 2 && !IsPrime(n)
    ensures LeastDivisor(d, n) && d * d <= n
  {
    d := LeastDivisorExists(n);
    LeastDivisorIsPrime(d, n);
    var q := n / d;
    assert n == d * q;
    assert q <= 0 ==> d * q <= 0;
    assert q >= 1;
    assert q != 1;
    MultipleDivides(q, d);
    assert q * d == n;
    assert q >= d;
    assert d * d <= d * q;
  }

  /** Euclid's lemma for a reduced first factor. */
  lemma {:induction false} EuclidReduced(p: int, a: int, b: int)
    requires IsPrime(p) && 0 < a < p && Divides(p, a * b)
    ensures Divides(p, b)
    decreases a
  {
    if a == 1 {
      assert a * b == b;
    } else {
      var q, r := p / a, p % a;
      assert p == a * q + r;
      assert r > 0 by {
        assert !Divides(a, p);
      }
      assert r * b == p * b - (a * b) * q by {
        assert r * b == (p - a * q) * b == p * b - (a * q) * b;
        assert (a * q) * b == (a * b) * q;
      }
      MultipleDivides(p, 1);
      DividesCombination(p, p, b, a * b, -q);
      assert r * b == p * b + (a * b) * (-q) by {
        assert (a * b) * (-q) == -((a * b) * q);
      }
      EuclidReduced(p, r, b);
    }
  }

  lemma Euclid(p: int, a: int, b: int)
    requires IsPrime(p) && Divides(p, a * b)
    ensures Divides(p, a) || Divides(p, b)
  {
    var q, r := a / p, a % p;
    if r != 0 {
      assert a == p * q + r;
      MultipleDivides(p, 1);
      DividesCombination(p, a * b, 1, p, -(q * b));
      assert r * b == a * b - p * (q * b) by {
        assert (p * q + r) * b == p * (q * b) + r * b;
      }
      assert a * b * 1 + p * (-(q * b)) == r * b by {
        assert p * (-(q * b)) == -(p * (q * b));
      }
      EuclidReduced(p, r, b);
    }
  }
}
