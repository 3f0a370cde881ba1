/**
 * The program games/factor.c: Dijkstra's smallest-factor algorithm, which keeps N
 * as digits in the mixed radices f, f+1, f+2, ... and re-expresses those digits
 * each time f grows by one, without ever dividing.
 */
module Factor {
  import opened Numbers

  const DIGITS := 24
  const INT_LIMIT := 0x8000_0000

  /** Value of the digits `s` in radices f, f+1, ... followed by a final quotient `x`. */
  function Denote(s: seq<int>, f: int, x: int): int {
    if s == [] then x else s[0] + f * Denote(s[1..], f + 1, x)
  }

  /** The product f * (f+1) * ... of n consecutive radices. */
  function Rising(f: nat, n: nat): nat
    decreases n
  {
    if n == 0 then 1 else f * Rising(f + 1, n - 1)
  }

  ghost predicate DigitsInRange(s: seq<int>, f: int) {
    forall i :: 0 <= i < |s| ==> 0 <= s[i] < f + i
  }

  lemma {:induction false} DenoteAppend(s: seq<int>, f: int, d: int, x: int)
    ensures Denote(s + [d], f, x) == Denote(s, f, d + (f + |s|) * x)
  {
    if s == [] {
      assert s + [d] == [d];
      assert Denote([d], f, x) == d + f * Denote([], f + 1, x);
    } else {
      assert (s + [d])[1..] == s[1..] + [d];
      DenoteAppend(s[1..], f + 1, d, x);
    }
  }

  /** With a quotient of at least 1 still to place, the value is at least the product of the radices used. */
  lemma {:induction false} DenoteAtLeastRising(s: seq<int>, f: nat, x: int)
    requires x >= 1
    requires forall i :: 0 <= i < |s| ==> s[i] >= 0
    ensures Denote(s, f, x) >= Rising(f, |s|)
  {
    if s != [] {
      DenoteAtLeastRising(s[1..], f + 1, x);
      MulMono(f, Rising(f + 1, |s| - 1), Denote(s[1..], f + 1, x));
    }
  }

  lemma {:induction false} RisingMonotone(f: nat, m: nat, n: nat)
    requires f >= 1 && m <= n
    ensures 1 <= Rising(f, m) <= Rising(f, n)
    decreases n
  {
    if m == 0 {
      if n > 0 {
        RisingMonotone(f + 1, 0, n - 1);
        MulMono(f, 1, Rising(f + 1, n - 1));
      }
    } else {
      RisingMonotone(f + 1, m - 1, n - 1);
      MulMono(f, 1, Rising(f + 1, m - 1));
      MulMono(f, Rising(f + 1, m - 1), Rising(f + 1, n - 1));
    }
  }

  /** At most 12 digits are ever needed for a 32-bit N. */
  lemma FewDigits(s: seq<int>, x: int)
    requires x >= 1 && Denote(s, 2, x) < INT_LIMIT
    requires forall i :: 0 <= i < |s| ==> s[i] >= 0
    ensures |s| <= 11
  {
    DenoteAtLeastRising(s, 2, x);
    if |s| >= 12 {
      RisingMonotone(2, 12, |s|);
    }
  }

  lemma {:induction false} DenoteNonNegative(s: seq<int>, f: int, x: int)
    requires f >= 1 && x >= 0
    requires forall i :: 0 <= i < |s| ==> s[i] >= 0
    ensures Denote(s, f, x) >= 0
  {
    if s != [] {
      DenoteNonNegative(s[1..], f + 1, x);
    }
  }

  /** If in-range digits sit below a quotient, a negative quotient makes the whole negative. */
  lemma {:induction false} DenoteSign(s: seq<int>, f: int, x: int)
    requires f >= 1 && x < 0 && DigitsInRange(s, f)
    ensures Denote(s, f, x) < 0
  {
    if s != [] {
      DenoteSign(s[1..], f + 1, x);
      var rest := Denote(s[1..], f + 1, x);
      assert f * rest <= -f;
    }
  }

  lemma {:induction false} DenoteTrim(s: seq<int>, f: int)
    requires s != [] && s[|s| - 1] == 0
    ensures Denote(s, f, 0) == Denote(s[..|s| - 1], f, 0)
  {
    assert s == s[..|s| - 1] + [0];
    DenoteAppend(s[..|s| - 1], f, 0, 0);
  }

  /** The lowest digit is the remainder of the whole by the lowest radix. */
  lemma LowestDigit(s: seq<int>, f: int)
    requires s != [] && f >= 2 && 0 <= s[0] < f
    ensures s[0] == 0 <==> Divides(f, Denote(s, f, 0))
  {
    var rest := Denote(s[1..], f + 1, 0);
    DivModUnique(s[0] + f * rest, f, rest, s[0]);
  }

  /** One position of the radix change: subtracting (i+1) times the next digit re-bases the rest. */
  lemma RebaseStep(f: int, i: int, a: int, b: int, v: int)
    ensures a + (f - 1) * (b + (f + i) * v) == (a - (i + 1) * b) + (f + i) * (b + (f - 1) * v)
  {
    assert (f - 1) * (b + (f + i) * v) == (f - 1) * b + (f - 1) * ((f + i) * v);
    assert (f + i) * (b + (f - 1) * v) == (f + i) * b + (f + i) * ((f - 1) * v);
    assert (f - 1) * ((f + i) * v) == (f + i) * ((f - 1) * v);
  }

  lemma SquareBeyond(f: int, a: int, b: int, d: int)
    requires 0 <= a < f && 0 <= b <= f < d
    ensures a + f * b < d * d
  {
    MulMono(f, b, f);
    MulMono(f, f, d);
    MulMono(d, f, d);
    assert f * d == d * f;
    assert d * d - d * f == d * (d - f);
    MulMono(d, 1, d - f);
  }

  /** What no divisor below f+1 and at most two digits means for N. */
  lemma TwoDigitsLeft(s: seq<int>, f: int, n: int)
    requires f >= 2 && 1 <= |s| <= 2 && DigitsInRange(s, f) && n == Denote(s, f, 0) && n >= 2
    requires forall g :: 2 <= g <= f ==> !Divides(g, n)
    ensures IsPrime(n)
  {
    var second := if |s| == 2 then s[1] else 0;
    assert Denote(s[1..], f + 1, 0) == second by {
      if |s| == 2 {
        assert s[1..] == [s[1]];
        assert [s[1]][1..] == [];
        assert Denote([], f + 2, 0) == 0;
        assert Denote([s[1]], f + 1, 0) == s[1] + (f + 1) * 0;
      }
    }
    if !IsPrime(n) {
      var d := CompositeHasSmallDivisor(n);
      SquareBeyond(f, s[0], second, d);
    }
  }

  lemma ThreeDigitsExceed(s: seq<int>, f: int)
    requires f >= 2 && |s| >= 3 && DigitsInRange(s, f) && s[|s| - 1] > 0
    ensures Denote(s, f, 0) > f
  {
    var rest := s[1..];
    TopDigitPositive(rest[1..], f + 2);
    MulMono(f + 1, 1, Denote(rest[1..], f + 2, 0));
    MulMono(f, 2, Denote(rest, f + 1, 0));
  }

  lemma {:induction false} TopDigitPositive(s: seq<int>, f: int)
    requires f >= 1 && s != [] && s[|s| - 1] > 0 && (forall i :: 0 <= i < |s| ==> s[i] >= 0)
    ensures Denote(s, f, 0) >= 1
  {
    if |s| == 1 {
      assert Denote(s[1..], f + 1, 0) == 0;
    } else {
      TopDigitPositive(s[1..], f + 1);
    }
  }

  lemma {:induction false} AllZero(s: seq<int>, f: int)
    requires forall i :: 0 <= i < |s| ==> s[i] == 0
    ensures Denote(s, f, 0) == 0
  {
    if s != [] {
      AllZero(s[1..], f + 1);
    }
  }

  lemma DivisionShrinks(x: int, y: int)
    requires x >= 1 && y >= 2
    ensures x == x % y + y * (x / y) && 0 <= x % y < y && 0 <= x / y < x
    ensures x / y == 0 ==> x % y > 0
  {
    var q := x / y;
    assert q < 0 ==> y * q < 0;
    MulMono(q, 2, y);
  }

  lemma SplitStep(s: seq<int>, x: int, y: int)
    requires x >= 1 && y == |s| + 2
    ensures 0 <= x % y < y && 0 <= x / y < x
    ensures x / y == 0 ==> x % y > 0
    ensures Denote(s + [x % y], 2, x / y) == Denote(s, 2, x)
  {
    DivisionShrinks(x, y);
    DenoteAppend(s, 2, x % y, x / y);
  }

  /** The first loop of `factor`: the digits of N in radices 2, 3, 4, ... */
  method SplitDigits(N: int, val: array<int>) returns (hib: int)
    requires 1 <= N < INT_LIMIT && val.Length == DIGITS
    modifies val
    ensures 0 <= hib < 12
    ensures Denote(val[..hib + 1], 2, 0) == N
    ensures DigitsInRange(val[..hib + 1], 2) && val[hib] > 0
  {
    hib := -1;
    var x, y := N, 2;
    while x != 0
      invariant x >= 0 && -1 <= hib < 12 && y == hib + 3
      invariant Denote(val[..hib + 1], 2, x) == N
      invariant DigitsInRange(val[..hib + 1], 2)
      invariant x == 0 ==> hib >= 0 && val[hib] > 0
      decreases x
    {
      ghost var before := val[..hib + 1];
      FewDigits(before, x);
      SplitStep(before, x, y);
      hib := hib + 1;
      val[hib] := x % y;
      assert val[..hib + 1] == before + [x % y];
      x := x / y;
      y := y + 1;
    }
  }

  /** Value of the digits from position i on, part way through the radix change to f. */
  ghost function Rest(s: seq<int>, f: int, i: nat): int
    requires i < |s|
  {
    s[i] + (f - 1) * Denote(s[i + 1..], f + i, 0)
  }

  /** The state in the middle of the radix change: i digits done, the rest waiting in `Rest`. */
  ghost predicate HalfRebased(s: seq<int>, f: int, i: nat, n: int) {
    && i < |s|
    && DigitsInRange(s[..i], f)
    && s[i] < f + i
    && (forall k :: i < k < |s| ==> 0 <= s[k] < f - 1 + k)
    && Denote(s[..i], f, Rest(s, f, i)) == n
  }

  /** Subtracting (i+1) times the next digit and borrowing k times moves the boundary one place. */
  lemma RebaseDigit(s: seq<int>, t: seq<int>, f: int, i: nat, n: int, k: nat)
    requires f >= 3 && HalfRebased(s, f, i, n) && i + 1 < |s| == |t|
    requires t[i] == s[i] - (i + 1) * s[i + 1] + k * (f + i)
    requires t[i + 1] == s[i + 1] - k
    requires forall j :: 0 <= j < |s| && j != i && j != i + 1 ==> t[j] == s[j]
    requires 0 <= t[i] < f + i
    ensures HalfRebased(t, f, i + 1, n)
  {
    var v := Denote(s[i + 2..], f + i + 1, 0);
    assert s[i + 1..][1..] == s[i + 2..];
    assert Denote(s[i + 1..], f + i, 0) == s[i + 1] + (f + i) * v;
    RebaseStep(f, i, s[i], s[i + 1], v);
    var u := (f - 1) * v;
    assert Rest(s, f, i) == t[i] + (f + i) * (t[i + 1] + u) by {
      BorrowStep(s[i] - (i + 1) * s[i + 1], f + i, s[i + 1] + u, k);
    }
    assert t[i + 2..] == s[i + 2..];
    assert Rest(t, f, i + 1) == t[i + 1] + u;
    assert t[..i] == s[..i];
    DenoteAppend(s[..i], f, t[i], t[i + 1] + u);
    assert t[..i + 1] == s[..i] + [t[i]];
  }

  lemma BorrowStep(a: int, r: int, b: int, k: int)
    ensures a + r * b == (a + k * r) + r * (b - k)
  {
    assert r * (b - k) == r * b - r * k;
  }

  /** Once every position is done the top digit is non-negative, because the whole is. */
  lemma RebaseDone(s: seq<int>, f: int, n: int)
    requires f >= 3 && s != [] && HalfRebased(s, f, |s| - 1, n) && n >= 0
    ensures DigitsInRange(s, f) && Denote(s, f, 0) == n
  {
    var top := |s| - 1;
    assert s[|s|..] == [];
    assert Rest(s, f, top) == s[top];
    if s[top] < 0 {
      DenoteSign(s[..top], f, s[top]);
    }
    assert s == s[..top] + [s[top]];
    DenoteAppend(s[..top], f, s[top], 0);
  }

  /** The innermost loop: borrow from position j until position i is not negative. */
  method Borrow(val: array<int>, i: int, j: int, radix: int) returns (ghost k: nat)
    requires 0 <= i < j < val.Length && radix > 0 && val[i] < radix
    modifies val
    ensures val[i] == old(val[i]) + k * radix && val[j] == old(val[j]) - k
    ensures 0 <= val[i] < radix
    ensures forall m :: 0 <= m < val.Length && m != i && m != j ==> val[m] == old(val[m])
  {
    k := 0;
    while val[i] < 0
      invariant val[i] == old(val[i]) + k * radix && val[j] == old(val[j]) - k
      invariant val[i] < radix
      invariant forall m :: 0 <= m < val.Length && m != i && m != j ==> val[m] == old(val[m])
      decreases -val[i]
    {
      val[i] := val[i] + radix;
      val[j] := val[j] - 1;
      k := k + 1;
    }
  }

  /** The body of the main loop: from radices f-1, f, ... to radices f, f+1, ... */
  method ChangeRadix(f: int, val: array<int>, hib: int)
    requires val.Length == DIGITS && 0 <= hib < DIGITS && f >= 3
    requires DigitsInRange(val[..hib + 1], f - 1)
    modifies val
    ensures Denote(val[..hib + 1], f, 0) == old(Denote(val[..hib + 1], f - 1, 0))
    ensures DigitsInRange(val[..hib + 1], f)
  {
    ghost var N := Denote(val[..hib + 1], f - 1, 0);
    DenoteNonNegative(val[..hib + 1], f - 1, 0);
    var i := 0;
    assert HalfRebased(val[..hib + 1], f, 0, N);
    while i != hib
      invariant 0 <= i <= hib
      invariant HalfRebased(val[..hib + 1], f, i, N)
      decreases hib - i
    {
      var j := i + 1;
      ghost var s := val[..hib + 1];
      MulMono(j, 0, s[j]);
      val[i] := val[i] - j * val[j];
      ghost var k := Borrow(val, i, j, f + i);
      RebaseDigit(s, val[..hib + 1], f, i, N, k);
      i := j;
    }
    RebaseDone(val[..hib + 1], f, N);
  }

  /** The loop that drops leading zero digits. */
  method DropZeros(f: int, val: array<int>, top: int) returns (hib: int)
    requires val.Length == DIGITS && 0 <= top < DIGITS
    requires Denote(val[..top + 1], f, 0) != 0
    ensures 0 <= hib <= top && val[hib] != 0
    ensures Denote(val[..hib + 1], f, 0) == Denote(val[..top + 1], f, 0)
  {
    hib := top;
    while val[hib] == 0
      invariant 0 <= hib <= top
      invariant Denote(val[..hib + 1], f, 0) == Denote(val[..top + 1], f, 0)
      decreases hib
    {
      DenoteTrim(val[..hib + 1], f);
      assert val[..hib + 1][..hib] == val[..hib];
      if hib == 0 {
        assert false;
      }
      hib := hib - 1;
    }
  }

  /** `factor`: the smallest prime factor of N (and 1 for N = 1). */
  method SmallestFactor(N: int) returns (p: int)
    requires 1 <= N < INT_LIMIT
    ensures N == 1 ==> p == 1
    ensures N >= 2 ==> LeastDivisor(p, N) && IsPrime(p)
  {
    var val := new int[DIGITS];
    var hib := SplitDigits(N, val);
    var f := 2;
    LowestDigit(val[..hib + 1], f);
    while val[0] != 0 && hib > 1
      invariant 2 <= f && 0 <= hib < 12
      invariant Denote(val[..hib + 1], f, 0) == N
      invariant DigitsInRange(val[..hib + 1], f) && val[hib] > 0
      invariant val[0] == 0 <==> Divides(f, N)
      invariant forall g :: 2 <= g < f ==> !Divides(g, N)
      decreases N - f
    {
      ThreeDigitsExceed(val[..hib + 1], f);
      f := f + 1;
      ChangeRadix(f, val, hib);
      ghost var all := val[..hib + 1];
      hib := DropZeros(f, val, hib);
      assert forall i :: 0 <= i <= hib ==> val[i] == all[i];
      LowestDigit(val[..hib + 1], f);
    }
    if val[0] == 0 {
      p := f;
      if N == 1 {
        DivisorBound(f, 1);
      } else {
        LeastDivisorIsPrime(p, N);
      }
    } else {
      p := N;
      if N >= 2 {
        TwoDigitsLeft(val[..hib + 1], f, N);
        MultipleDivides(N, 1);
      }
    }
  }

  function Product(s: seq<int>): int {
    if s == [] then 1 else Product(s[..|s| - 1]) * s[|s| - 1]
  }

  lemma NextFactor(prime: int, n: int)
    requires n >= 2 && LeastDivisor(prime, n)
    ensures prime * (n / prime) == n && 1 <= n / prime < n
    ensures forall e :: 2 <= e < prime ==> !Divides(e, n / prime)
  {
    var q := n / prime;
    ExactQuotient(prime, n);
    forall e | 2 <= e < prime
      ensures !Divides(e, q)
    {
      if Divides(e, q) {
        MultipleDivides(q, prime);
        assert q * prime == n;
        hide Divides;
        DividesTransitive(e, q, n);
      }
    }
  }

  lemma NoFactors()
    ensures Product([]) == 1
  {
  }

  lemma {:induction false} OneMoreFactor(s: seq<int>, prime: int)
    ensures Product(s + [prime]) == Product(s) * prime
  {
    assert (s + [prime])[..|s|] == s;
  }

  /** A factor found later is not smaller. */
  lemma NotBefore(s: seq<int>, prime: int, rest: int)
    requires LeastDivisor(prime, rest)
    requires s != [] ==> forall e :: 2 <= e < s[|s| - 1] ==> !Divides(e, rest)
    ensures s != [] ==> s[|s| - 1] <= prime
  {
    hide Divides;
  }

  /** `printfactors`: the lines printed, in order. */
  method PrintFactors(n: int) returns (printed: seq<int>)
    requires 1 <= n < INT_LIMIT
    ensures Product(printed) == n
    ensures n == 1 ==> printed == [1]
    ensures n >= 2 ==> forall i :: 0 <= i < |printed| ==> IsPrime(printed[i])
    ensures forall i, j :: 0 <= i < j < |printed| ==> printed[i] <= printed[j]
  {
    hide Divides, IsPrime, LeastDivisor, Product;
    printed := [];
    NoFactors();
    if n == 1 {
      OneMoreFactor([], 1);
      assert [] + [1] == [1];
      return [1];
    }
    var rest := n;
    while rest != 1
      invariant 1 <= rest <= n
      invariant Product(printed) * rest == n
      invariant forall i :: 0 <= i < |printed| ==> IsPrime(printed[i])
      invariant forall i, j :: 0 <= i < j < |printed| ==> printed[i] <= printed[j]
      invariant printed != [] ==> forall e :: 2 <= e < printed[|printed| - 1] ==> !Divides(e, rest)
      decreases rest
    {
      var prime := SmallestFactor(rest);
      NextFactor(prime, rest);
      var q := rest / prime;
      NotBefore(printed, prime, rest);
      OneMoreFactor(printed, prime);
      assert Product(printed) * prime * q == Product(printed) * (prime * q);
      printed := printed + [prime];
      rest := q;
    }
  }
}
