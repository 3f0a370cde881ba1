/** The number theory behind the quadratic rehash of bin/ld.c and etc/sa.c. */
module QuadraticProbe {
  import opened Numbers

  lemma DifferenceOfSquares(m: int, k: int)
    ensures k * k - m * m == (k - m) * (k + m)
  {
  }

  lemma EqualRemainders(d: int, a: int, b: int)
    requires d > 0 && a % d == b % d
    ensures Divides(d, a - b)
  {
    var q := a / d - b / d;
    assert a - b == d * q by {
      assert a == d * (a / d) + a % d && b == d * (b / d) + b % d;
      assert d * q == d * (a / d) - d * (b / d);
    }
    MultipleDivides(d, q);
  }

  /** Two different probes among the first (p+1)/2 fall on different buckets of p. */
  lemma DistinctModP(p: int, h: int, m: int, k: int)
    requires IsPrime(p) && 0 <= m < k && k + m < p
    ensures (h + k * k) % p != (h + m * m) % p
  {
    if (h + k * k) % p == (h + m * m) % p {
      EqualRemainders(p, h + k * k, h + m * m);
      DifferenceOfSquares(m, k);
      Euclid(p, k - m, k + m);
      if Divides(p, k - m) {
        DivisorBound(p, k - m);
      } else {
        DivisorBound(p, k + m);
      }
    }
  }

  lemma OnlyMultiple(p: int, n: int)
    requires p > 0 && Divides(p, n) && 0 < n < 2 * p
    ensures n == p
  {
    var q := n / p;
    assert n == p * q;
    assert q <= 0 ==> p * q <= 0;
    assert q >= 2 ==> p * q >= p * 2;
  }

  lemma NotTwice(p: int, a: int, b: int)
    requires IsPrime(p) && p % 2 == 1 && 0 < a < p && 0 < b < 2 * p && a % 2 == b % 2
    ensures !Divides(2 * p, a * b)
  {
    if Divides(2 * p, a * b) {
      MultipleDivides(p, 2);
      DividesTransitive(p, 2 * p, a * b);
      MultipleDivides(2, p);
      DividesTransitive(2, 2 * p, a * b);
      Euclid(p, a, b);
      if Divides(p, a) {
        DivisorBound(p, a);
      } else {
        OnlyMultiple(p, b);
        OddProduct(a, b);
      }
    }
  }

  /** Two different probes among the first p fall on different buckets of 2p. */
  lemma DistinctModTwiceP(p: int, h: int, m: int, k: int)
    requires IsPrime(p) && p % 2 == 1 && 0 <= m < k < p
    ensures (h + k * k) % (2 * p) != (h + m * m) % (2 * p)
  {
    if (h + k * k) % (2 * p) == (h + m * m) % (2 * p) {
      EqualRemainders(2 * p, h + k * k, h + m * m);
      DifferenceOfSquares(m, k);
      NotTwice(p, k - m, k + m);
    }
  }

  lemma OddProduct(a: int, b: int)
    requires b % 2 == 1 && a % 2 == 1
    ensures !Divides(2, a * b)
  {
    var x, y := a / 2, b / 2;
    assert a == 2 * x + 1 && b == 2 * y + 1;
    assert a * b == 2 * (x * b + y) + 1 by {
      assert (2 * x + 1) * b == 2 * (x * b) + b;
    }
    DivModUnique(a * b, 2, x * b + y, 1);
  }

  /** Distinct numbers below m are at most m. */
  lemma {:induction false} Pigeonhole(s: seq<nat>, m: nat)
    requires forall i :: 0 <= i < |s| ==> s[i] < m
    requires forall i, j :: 0 <= i < j < |s| ==> s[i] != s[j]
    ensures |s| <= m
    decreases m
  {
    assert s != [] ==> s[0] < m;
    if m > 0 {
      if i :| 0 <= i < |s| && s[i] == m - 1 {
        var t := s[..i] + s[i + 1..];
        forall a, b | 0 <= a < b < |t|
          ensures t[a] != t[b]
        {
          var a' := if a < i then a else a + 1;
          var b' := if b < i then b else b + 1;
          assert t[a] == s[a'] && t[b] == s[b'];
        }
        Pigeonhole(t, m - 1);
      } else {
        Pigeonhole(s, m - 1);
      }
    }
  }

  /** NSYM and NHASH are this prime. */
  const P: int := 1103

  lemma PIsPrime()
    ensures IsPrime(P)
  {
    if !IsPrime(P) {
      var d := CompositeHasSmallDivisor(P);
      if d >= 34 {
        MulMono(d, 34, d);
        MulMono(34, 34, d);
      }
      LeastDivisorIsPrime(d, P);
      NoSmallDivisor(d);
    }
  }

  lemma NoSmallDivisor(d: int)
    requires 2 <= d < 34
    ensures !Divides(d, P)
  {
    assert 1103 % 2 == 1 && 1103 % 3 == 2 && 1103 % 5 == 3 && 1103 % 7 == 4;
  }
}
