/**
 * The program games/primes.c: a segmented sieve of Eratosthenes over windows of 8000
 * numbers, with trial factors above 7 generated by a wheel of 48 increments.
 */
module Sieve {
  import opened Numbers

  const TABSIZE := 1000
  const TABBITS := 8 * TABSIZE

  // The table `pt` of the primes below 100, in rows.
  const PT1: seq<nat> := [2, 3, 5, 7]
  const PT2: seq<nat> := [11, 13, 17, 19, 23, 29]
  const PT3: seq<nat> := [31, 37, 41, 43, 47]
  const PT4: seq<nat> := [53, 59, 61, 67, 71]
  const PT5: seq<nat> := [73, 79, 83, 89, 97]
  const PT: seq<nat> := (PT1 + PT2) + ((PT3 + PT4) + PT5)

  // The table `factab` of differences between successive trial factors: its first entry
  // is used last in each turn of the wheel, the other 47 are written in rows of six.
  const ROW1: seq<nat> := [2, 4, 2, 4, 6, 2]
  const ROW2: seq<nat> := [6, 4, 2, 4, 6, 6]
  const ROW3: seq<nat> := [2, 6, 4, 2, 6, 4]
  const ROW4: seq<nat> := [6, 8, 4, 2, 4, 2]
  const ROW5: seq<nat> := [4, 8, 6, 4, 6, 2]
  const ROW6: seq<nat> := [4, 6, 2, 6, 6, 4]
  const ROW7: seq<nat> := [2, 4, 6, 2, 6, 4]
  const ROW8: seq<nat> := [2, 4, 2, 10, 2]
  const FACTAB: seq<nat> := [10] + (((ROW1 + ROW2) + (ROW3 + ROW4)) + ((ROW5 + ROW6) + (ROW7 + ROW8)))

  // ----- the bit table

  /** The table `bittab`: 01, 02, 04, ... 0200. */
  function BitMask(k: nat): bv8
    requires k < 8
  {
    if k == 0 then 1 else BitMask(k - 1) << 1
  }

  predicate Marked(table: seq<bv8>, i: nat)
    requires |table| == TABSIZE && i < TABBITS
  {
    table[i / 8] & BitMask(i % 8) != 0
  }

  lemma BitMaskValues()
    ensures BitMask(0) == 1 && BitMask(1) == 2 && BitMask(2) == 4 && BitMask(3) == 8
    ensures BitMask(4) == 16 && BitMask(5) == 32 && BitMask(6) == 64 && BitMask(7) == 128
  {
    assert BitMask(3) == 8;
  }

  lemma MaskedOr(b: bv8, k: nat, m: nat)
    requires k < 8 && m < 8
    ensures (b | BitMask(k)) & BitMask(m) != 0 <==> k == m || b & BitMask(m) != 0
  {
    BitMaskValues();
  }

  function WithMark(table: seq<bv8>, i: nat): (t: seq<bv8>)
    requires |table| == TABSIZE && i < TABBITS
    ensures |t| == TABSIZE
  {
    table[i / 8 := table[i / 8] | BitMask(i % 8)]
  }

  lemma MarkOneAt(table: seq<bv8>, i: nat, j: nat)
    requires |table| == TABSIZE && i < TABBITS && j < TABBITS
    ensures Marked(WithMark(table, i), j) <==> j == i || Marked(table, j)
  {
    var t := WithMark(table, i);
    if j / 8 == i / 8 {
      assert t[j / 8] == table[i / 8] | BitMask(i % 8);
      MaskedOr(table[i / 8], i % 8, j % 8);
      assert j % 8 == i % 8 <==> j == i;
    } else {
      assert t[j / 8] == table[j / 8];
    }
  }

  /** Setting one bit changes the mark of exactly that number. */
  lemma MarkOne(table: seq<bv8>, i: nat)
    requires |table| == TABSIZE && i < TABBITS
    ensures forall j :: 0 <= j < TABBITS ==> (Marked(WithMark(table, i), j) <==> j == i || Marked(table, j))
  {
    forall j | 0 <= j < TABBITS
      ensures Marked(WithMark(table, i), j) <==> j == i || Marked(table, j)
    {
      MarkOneAt(table, i, j);
    }
  }

  // ----- the wheel

  predicate Coprime210(n: int) {
    n % 2 != 0 && n % 3 != 0 && n % 5 != 0 && n % 7 != 0
  }

  /** Adding the even number `gap` to the odd number r skips only multiples of 2, 3, 5 or 7. */
  predicate SoundStep(r: nat, gap: nat) {
    && Coprime210(r)
    && (gap == 2 || gap == 4 || gap == 6 || gap == 8 || gap == 10)
    && (gap >= 4 ==> !Coprime210(r + 2))
    && (gap >= 6 ==> !Coprime210(r + 4))
    && (gap >= 8 ==> !Coprime210(r + 6))
    && (gap >= 10 ==> !Coprime210(r + 8))
  }

  lemma EvenNotCoprime(m: int)
    ensures Coprime210(m) ==> m % 2 == 1
  {
  }

  lemma SoundStepSkips(r: nat, gap: nat, m: nat)
    requires SoundStep(r, gap) && r < m < r + gap
    ensures !Coprime210(m)
  {
    hide Coprime210;
    var d := m - r;
    if d % 2 == 1 {
      EvenNotCoprime(r);
      EvenNotCoprime(m);
    } else {
      assert d == 2 || d == 4 || d == 6 || d == 8;
    }
  }

  /** Adding the gaps one after another leads from r to `end` in sound steps. */
  predicate Turns(gaps: seq<nat>, r: nat, end: nat)
    decreases gaps
  {
    if gaps == [] then r == end else SoundStep(r, gaps[0]) && Turns(gaps[1..], r + gaps[0], end)
  }

  lemma {:induction false} TurnsConcat(a: seq<nat>, b: seq<nat>, r: nat, middle: nat, end: nat)
    requires Turns(a, r, middle) && Turns(b, middle, end)
    ensures Turns(a + b, r, end)
    decreases a
  {
    if a == [] {
      assert a + b == b;
    } else {
      assert (a + b)[1..] == a[1..] + b;
      TurnsConcat(a[1..], b, r + a[0], middle, end);
    }
  }

  lemma ThreeSteps(gaps: seq<nat>, a: nat, b: nat, c: nat, d: nat)
    requires |gaps| == 3 && b == a + gaps[0] && c == b + gaps[1] && d == c + gaps[2]
    requires SoundStep(a, gaps[0]) && SoundStep(b, gaps[1]) && SoundStep(c, gaps[2])
    ensures Turns(gaps, a, d)
  {
    assert Turns(gaps[3..], d, d);
    assert gaps[2..][1..] == gaps[3..];
    assert Turns(gaps[2..], c, d);
    assert gaps[1..][1..] == gaps[2..];
    assert Turns(gaps[1..], b, d);
  }

  lemma Row1()
    ensures Turns(ROW1, 11, 31)
  {
    ThreeSteps([2, 4, 2], 11, 13, 17, 19);
    ThreeSteps([4, 6, 2], 19, 23, 29, 31);
    TurnsConcat([2, 4, 2], [4, 6, 2], 11, 19, 31);
    assert ROW1 == [2, 4, 2] + [4, 6, 2];
  }

  lemma Row2()
    ensures Turns(ROW2, 31, 59)
  {
    ThreeSteps([6, 4, 2], 31, 37, 41, 43);
    ThreeSteps([4, 6, 6], 43, 47, 53, 59);
    TurnsConcat([6, 4, 2], [4, 6, 6], 31, 43, 59);
    assert ROW2 == [6, 4, 2] + [4, 6, 6];
  }

  lemma Row3()
    ensures Turns(ROW3, 59, 83)
  {
    ThreeSteps([2, 6, 4], 59, 61, 67, 71);
    ThreeSteps([2, 6, 4], 71, 73, 79, 83);
    TurnsConcat([2, 6, 4], [2, 6, 4], 59, 71, 83);
    assert ROW3 == [2, 6, 4] + [2, 6, 4];
  }

  lemma Row4()
    ensures Turns(ROW4, 83, 109)
  {
    ThreeSteps([6, 8, 4], 83, 89, 97, 101);
    ThreeSteps([2, 4, 2], 101, 103, 107, 109);
    TurnsConcat([6, 8, 4], [2, 4, 2], 83, 101, 109);
    assert ROW4 == [6, 8, 4] + [2, 4, 2];
  }

  lemma Row5()
    ensures Turns(ROW5, 109, 139)
  {
    ThreeSteps([4, 8, 6], 109, 113, 121, 127);
    ThreeSteps([4, 6, 2], 127, 131, 137, 139);
    TurnsConcat([4, 8, 6], [4, 6, 2], 109, 127, 139);
    assert ROW5 == [4, 8, 6] + [4, 6, 2];
  }

  lemma Row6()
    ensures Turns(ROW6, 139, 167)
  {
    ThreeSteps([4, 6, 2], 139, 143, 149, 151);
    ThreeSteps([6, 6, 4], 151, 157, 163, 167);
    TurnsConcat([4, 6, 2], [6, 6, 4], 139, 151, 167);
    assert ROW6 == [4, 6, 2] + [6, 6, 4];
  }

  lemma Row7()
    ensures Turns(ROW7, 167, 191)
  {
    ThreeSteps([2, 4, 6], 167, 169, 173, 179);
    ThreeSteps([2, 6, 4], 179, 181, 187, 191);
    TurnsConcat([2, 4, 6], [2, 6, 4], 167, 179, 191);
    assert ROW7 == [2, 4, 6] + [2, 6, 4];
  }

  lemma Row8()
    ensures Turns(ROW8, 191, 211)
  {
    ThreeSteps([2, 4, 2], 191, 193, 197, 199);
    assert SoundStep(199, 10) && SoundStep(209, 2);
    assert Turns([2], 209, 211);
    assert Turns([10, 2], 199, 211);
    TurnsConcat([2, 4, 2], [10, 2], 191, 199, 211);
    assert ROW8 == [2, 4, 2] + [10, 2];
  }

  lemma FirstHalfTurn()
    ensures Turns((ROW1 + ROW2) + (ROW3 + ROW4), 11, 109)
    ensures |(ROW1 + ROW2) + (ROW3 + ROW4)| == 24
  {
    Row1();
    Row2();
    Row3();
    Row4();
    TurnsConcat(ROW1, ROW2, 11, 31, 59);
    TurnsConcat(ROW3, ROW4, 59, 83, 109);
    TurnsConcat(ROW1 + ROW2, ROW3 + ROW4, 11, 59, 109);
  }

  lemma SecondHalfTurn()
    ensures Turns((ROW5 + ROW6) + (ROW7 + ROW8), 109, 211)
    ensures |(ROW5 + ROW6) + (ROW7 + ROW8)| == 23
  {
    Row5();
    Row6();
    Row7();
    Row8();
    TurnsConcat(ROW5, ROW6, 109, 139, 167);
    TurnsConcat(ROW7, ROW8, 167, 191, 211);
    TurnsConcat(ROW5 + ROW6, ROW7 + ROW8, 109, 167, 211);
  }

  lemma WholeTurn(first: seq<nat>, a: seq<nat>, b: seq<nat>, table: seq<nat>)
    requires Turns(a, 11, 109) && Turns(b, 109, 211)
    requires first == [10] && table == first + (a + b) && |table| == 48
    ensures SoundTable(table)
  {
    TurnsConcat(a, b, 11, 109, 211);
    assert first[1..] == [];
    assert Turns(first[1..], 221, 221);
    assert SoundStep(211, 10);
    assert Turns(first, 211, 221);
    TurnsConcat(a + b, first, 11, 211, 221);
    assert table[1..] == a + b;
  }

  /** A full turn of the wheel leads from 11 to 221 = 11 + 210. */
  lemma WheelIsSound()
    ensures SoundTable(FACTAB)
  {
    FirstHalfTurn();
    SecondHalfTurn();
    WholeTurn([10], (ROW1 + ROW2) + (ROW3 + ROW4), (ROW5 + ROW6) + (ROW7 + ROW8), FACTAB);
  }

  /** The k-th number reached from r. */
  function Reached(gaps: seq<nat>, r: nat, k: nat): nat
    requires k <= |gaps|
  {
    if k == 0 then r else Reached(gaps[1..], r + gaps[0], k - 1)
  }

  lemma {:induction false} TurnsAt(gaps: seq<nat>, r: nat, end: nat, k: nat)
    requires Turns(gaps, r, end) && k <= |gaps|
    ensures k == |gaps| ==> Reached(gaps, r, k) == end
    ensures k < |gaps| ==>
      && SoundStep(Reached(gaps, r, k), gaps[k])
      && Reached(gaps, r, k + 1) == Reached(gaps, r, k) + gaps[k]
    decreases gaps
  {
    if k > 0 {
      TurnsAt(gaps[1..], r + gaps[0], end, k - 1);
    }
  }

  lemma CoprimeShift(n: int, c: int)
    ensures Coprime210(n) == Coprime210(n + 210 * c)
  {
    ModShift(n, 2, 105 * c);
    ModShift(n, 3, 70 * c);
    ModShift(n, 5, 42 * c);
    ModShift(n, 7, 30 * c);
  }

  /** The table in the order the loop uses it. */
  ghost function Wheel(table: seq<nat>): seq<nat>
    requires table != []
  {
    table[1..] + [table[0]]
  }

  /** All the sieve needs to know about the table. */
  ghost predicate SoundTable(table: seq<nat>) {
    |table| == 48 && Turns(Wheel(table), 11, 221)
  }

  /** The factor that the loop is at when `fp` is the next table index, after c full turns. */
  ghost predicate OnWheel(table: seq<nat>, factor: int, fp: nat, c: nat)
    requires SoundTable(table)
  {
    fp < 48 && factor == Reached(Wheel(table), 11, if fp == 0 then 47 else fp - 1) + 210 * c
  }

  /** One step skips no number coprime to 210, and lands on the wheel again. */
  lemma WheelStep(table: seq<nat>, factor: int, fp: nat, c: nat)
    requires SoundTable(table) && OnWheel(table, factor, fp, c)
    ensures Coprime210(factor) && table[fp] >= 1
    ensures forall m :: factor < m < factor + table[fp] ==> !Coprime210(m)
    ensures OnWheel(table, factor + table[fp], if fp + 1 >= 48 then 0 else fp + 1, if fp == 0 then c + 1 else c)
  {
    var k := if fp == 0 then 47 else fp - 1;
    var r := Reached(Wheel(table), 11, k);
    TurnsAt(Wheel(table), 11, 221, k);
    TurnsAt(Wheel(table), 11, 221, k + 1);
    CoprimeShift(r, c);
    forall m | factor < m < factor + table[fp]
      ensures !Coprime210(m)
    {
      SoundStepSkips(r, table[fp], m - 210 * c);
      CoprimeShift(m - 210 * c, c);
    }
  }

  // ----- square root

  /** The exact integer square root. */
  function SquareRoot(n: nat): (v: nat)
    ensures v * v <= n < (v + 1) * (v + 1)
  {
    if n == 0 then 0
    else
      var w := SquareRoot(n - 1);
      if (w + 1) * (w + 1) <= n then w + 1 else w
  }

  lemma SquareMono(a: nat, b: nat)
    ensures a <= b ==> a * a <= b * b
  {
    if a <= b {
      MulMono(a, a, b);
      MulMono(b, a, b);
    }
  }

  lemma SquareRootBelow(start: nat, v: nat)
    requires start >= 99 && v * v <= start + TABBITS
    ensures 11 <= SquareRoot(start + TABBITS) && v < start
  {
    var w := SquareRoot(start + TABBITS);
    SquareMono(w + 1, 11);
    SquareMono(start, v);
    MulMono(start, 99, start);
  }

  // ----- the sieve

  /** The smallest offset whose number is a multiple of `factor`. */
  method FirstOffset(start: nat, factor: nat) returns (off: int)
    requires factor >= 1
    ensures 0 <= off < factor && Divides(factor, start + off)
    ensures forall n :: start <= n < start + off ==> !Divides(factor, n)
  {
    var quot := start / factor;
    off := quot * factor - start;
    FirstMultiple(start, factor);
    if off < 0 {
      off := off + factor;
    }
  }

  /** Exactly the multiples at offsets below `off` have been marked so far. */
  ghost predicate MarkedBelow(before: seq<bv8>, now: seq<bv8>, start: nat, factor: nat, off: int) {
    && |before| == TABSIZE == |now| && factor >= 1
    && forall i :: 0 <= i < TABBITS ==>
      (Marked(now, i) <==> Marked(before, i) || (Divides(factor, start + i) && i < off))
  }

  lemma MarkedBelowStep(before: seq<bv8>, now: seq<bv8>, start: nat, factor: nat, off: nat)
    requires MarkedBelow(before, now, start, factor, off) && off < TABBITS
    requires Divides(factor, start + off)
    ensures MarkedBelow(before, WithMark(now, off), start, factor, off + factor)
    ensures Divides(factor, start + off + factor)
  {
    MarkOne(now, off);
    NextMultiple(start + off, factor);
  }

  method MarkBit(table: array<bv8>, i: nat)
    requires table.Length == TABSIZE && i < TABBITS
    modifies table
    ensures table[..] == WithMark(old(table[..]), i)
  {
    table[i / 8] := table[i / 8] | BitMask(i % 8);
  }

  /** `sieve`: mark every multiple of `factor` in the window that begins at `start`. */
  method MarkMultiples(table: array<bv8>, start: nat, factor: nat)
    requires table.Length == TABSIZE && factor >= 1
    modifies table
    ensures MarkedBelow(old(table[..]), table[..], start, factor, TABBITS)
  {
    var off := FirstOffset(start, factor);
    ghost var before := table[..];
    while off < TABBITS
      invariant 0 <= off && Divides(factor, start + off)
      invariant MarkedBelow(before, table[..], start, factor, off)
      decreases TABBITS - off
    {
      var i := off;
      MarkedBelowStep(before, table[..], start, factor, i);
      MarkBit(table, i);
      off := off + factor;
    }
  }

  lemma NextMultiple(n: int, d: int)
    requires d >= 1 && Divides(d, n)
    ensures Divides(d, n + d)
    ensures forall m :: n < m < n + d ==> !Divides(d, m)
  {
    DivModUnique(n + d, d, n / d + 1, 0);
    forall m | n < m < n + d
      ensures !Divides(d, m)
    {
      DivModUnique(m, d, n / d, m - n);
    }
  }

  lemma FirstMultiple(start: nat, d: nat)
    requires d >= 1
    ensures var below := (start / d) * d - start;
      var off := if below < 0 then below + d else below;
      && 0 <= off < d && Divides(d, start + off)
      && forall n :: start <= n < start + off ==> !Divides(d, n)
  {
    var q, r := start / d, start % d;
    assert q * d == d * q == start - r;
    DivModUnique(d * q, d, q, 0);
    NextMultiple(d * q, d);
  }

  /** Everything the trial factors of one window must achieve: marks agree with the set of factors used. */
  ghost predicate MarksAre(table: seq<bv8>, start: nat, used: set<nat>) {
    && |table| == TABSIZE
    && (forall f :: f in used ==> f >= 1)
    && forall i :: 0 <= i < TABBITS ==> (Marked(table, i) <==> exists f :: f in used && Divides(f, start + i))
  }

  lemma MarksGrow(before: seq<bv8>, after: seq<bv8>, start: nat, used: set<nat>, factor: nat)
    requires MarksAre(before, start, used) && MarkedBelow(before, after, start, factor, TABBITS)
    ensures MarksAre(after, start, used + {factor})
  {
    forall i | 0 <= i < TABBITS
      ensures Marked(after, i) <==> exists f :: f in used + {factor} && Divides(f, start + i)
    {
      if Marked(before, i) {
        var f :| f in used && Divides(f, start + i);
        assert f in used + {factor};
      } else if Divides(factor, start + i) {
        assert factor in used + {factor};
      }
    }
  }

  method ClearTable(table: array<bv8>)
    requires table.Length == TABSIZE
    modifies table
    ensures forall start :: MarksAre(table[..], start, {})
  {
    var p := 0;
    while p < TABSIZE
      invariant 0 <= p <= TABSIZE
      invariant forall k :: 0 <= k < p ==> table[k] == 0
    {
      table[p] := 0;
      p := p + 1;
    }
  }

  method SieveOne(table: array<bv8>, start: nat, factor: nat, ghost used: set<nat>) returns (ghost more: set<nat>)
    requires factor >= 1 && MarksAre(table[..], start, used)
    modifies table
    ensures more == used + {factor} && MarksAre(table[..], start, more)
  {
    ghost var before := table[..];
    MarkMultiples(table, start, factor);
    MarksGrow(before, table[..], start, used, factor);
    more := used + {factor};
  }

  /** The trial factors used for a window reach every prime up to v and stay below the window. */
  ghost predicate EnoughFactors(used: set<nat>, start: nat, v: nat) {
    && (forall f :: f in used ==> 3 <= f < start)
    && 3 in used && 5 in used && 7 in used
    && forall m :: 11 <= m <= v && Coprime210(m) ==> m in used
  }

  lemma PrimeIsCoprime210(p: int)
    requires IsPrime(p) && p > 7
    ensures Coprime210(p)
  {
    assert !Divides(2, p) && !Divides(3, p) && !Divides(5, p) && !Divides(7, p);
  }

  lemma OddPrime(p: int)
    requires IsPrime(p)
    ensures p == 2 || p == 3 || p == 5 || p == 7 || (p >= 11 && Coprime210(p))
  {
    if p > 7 {
      PrimeIsCoprime210(p);
    }
    assert p > 2 ==> !Divides(2, p);
  }

  /** An odd number of the window is left unmarked exactly when it is prime. */
  lemma UnmarkedIffPrime(table: seq<bv8>, start: nat, used: set<nat>, i: nat)
    requires i < TABBITS && start >= 99 && (start + i) % 2 == 1
    requires MarksAre(table, start, used)
    requires EnoughFactors(used, start, SquareRoot(start + TABBITS))
    ensures !Marked(table, i) <==> IsPrime(start + i)
  {
    var n := start + i;
    if Marked(table, i) {
      var f :| f in used && Divides(f, n);
      assert 2 <= f < n;
    } else if !IsPrime(n) {
      var d := CompositeHasSmallDivisor(n);
      LeastDivisorIsPrime(d, n);
      var v := SquareRoot(start + TABBITS);
      SquareMono(v + 1, d);
      OddPrime(d);
    }
  }

  /** Clear the table, then mark the multiples of 3, 5, 7 and of every factor the wheel yields up to v. */
  method SieveWindow(table: array<bv8>, start: nat, v: nat, factab: seq<nat>) returns (ghost used: set<nat>)
    requires table.Length == TABSIZE && 11 <= v < start && SoundTable(factab)
    modifies table
    ensures MarksAre(table[..], start, used)
    ensures EnoughFactors(used, start, v)
  {
    ClearTable(table);
    used := {};
    used := SieveOne(table, start, 3, used);
    used := SieveOne(table, start, 5, used);
    used := SieveOne(table, start, 7, used);
    var factor := 11;
    var fp := 1;
    ghost var turns := 0;
    var more := true;
    while more
      invariant 0 <= fp < 48 && OnWheel(factab, factor, fp, turns)
      invariant more == (factor <= v) && factor >= 11
      invariant MarksAre(table[..], start, used)
      invariant 3 in used && 5 in used && 7 in used
      invariant forall f :: f in used ==> 3 <= f < start
      invariant forall m :: 11 <= m < factor && Coprime210(m) ==> m in used
      decreases v - factor
    {
      used := SieveOne(table, start, factor, used);
      WheelStep(factab, factor, fp, turns);
      turns := if fp == 0 then turns + 1 else turns;
      factor := factor + factab[fp];
      fp := fp + 1;
      if fp >= |factab| {
        fp := 0;
      }
      more := factor <= v;
    }
  }

  // ----- the list of primes

  /** `out` is the increasing list of exactly the primes in [from, to). */
  ghost predicate PrimesBetween(out: seq<nat>, from: nat, to: nat) {
    && (forall i, j :: 0 <= i < j < |out| ==> out[i] < out[j])
    && (forall n :: n in out <==> from <= n < to && IsPrime(n))
  }

  lemma PrimesExtend(out: seq<nat>, from: nat, n: nat)
    requires PrimesBetween(out, from, n) && from <= n
    ensures PrimesBetween(if IsPrime(n) then out + [n] else out, from, n + 1)
  {
    if IsPrime(n) {
      forall i | 0 <= i < |out|
        ensures out[i] < n
      {
        assert out[i] in out;
      }
    }
  }

  lemma EvenExtend(out: seq<nat>, from: nat, n: nat)
    requires PrimesBetween(out, from, n) && n % 2 == 0 && n > 2
    ensures PrimesBetween(out, from, n + 1)
  {
    assert Divides(2, n);
  }

  /** Below 121 the only composites are the multiples of 2, 3, 5 and 7. */
  lemma SmallPrime(n: nat)
    requires 11 <= n < 121
    ensures IsPrime(n) <==> Coprime210(n)
  {
    if IsPrime(n) {
      PrimeIsCoprime210(n);
    } else if Coprime210(n) {
      var d := CompositeHasSmallDivisor(n);
      SquareMono(11, d);
      LeastDivisorIsPrime(d, n);
      OddPrime(d);
    }
  }

  /** The first row; 4, 6, 8, 9 and 10 are left out. */
  lemma FirstRow()
    ensures PrimesBetween(PT1, 0, 11)
  {
    forall n: nat | n < 11
      ensures n in PT1 <==> IsPrime(n)
    {
      if n == 4 || n == 6 || n == 8 || n == 10 {
        assert Divides(2, n);
      } else if n == 9 {
        assert Divides(3, n);
      } else {
        assert !Divides(2, 3) && !Divides(2, 5) && !Divides(3, 5) && !Divides(4, 5);
        assert !Divides(2, 7) && !Divides(3, 7) && !Divides(4, 7) && !Divides(5, 7) && !Divides(6, 7);
      }
    }
  }

  lemma LaterRow(row: seq<nat>, from: nat, to: nat)
    requires 11 <= from <= to <= 121
    requires forall i, j :: 0 <= i < j < |row| ==> row[i] < row[j]
    requires forall n :: n in row <==> from <= n < to && Coprime210(n)
    ensures PrimesBetween(row, from, to)
  {
    forall n: nat
      ensures n in row <==> from <= n < to && IsPrime(n)
    {
      if from <= n < to {
        SmallPrime(n);
      }
    }
  }

  lemma RowsConcat(a: seq<nat>, b: seq<nat>, from: nat, middle: nat, to: nat)
    requires PrimesBetween(a, from, middle) && PrimesBetween(b, middle, to) && from <= middle <= to
    ensures PrimesBetween(a + b, from, to)
  {
    forall i, j | 0 <= i < j < |a + b|
      ensures (a + b)[i] < (a + b)[j]
    {
      assert i < |a| ==> (a + b)[i] in a;
      assert j >= |a| ==> (a + b)[j] in b;
    }
  }

  lemma PrimeRow2()
    ensures PrimesBetween(PT2, 11, 31)
  {
    LaterRow(PT2, 11, 31);
  }

  lemma PrimeRow3()
    ensures PrimesBetween(PT3, 31, 53)
  {
    LaterRow(PT3, 31, 53);
  }

  lemma PrimeRow4()
    ensures PrimesBetween(PT4, 53, 73)
  {
    LaterRow(PT4, 53, 73);
  }

  lemma PrimeRow5()
    ensures PrimesBetween(PT5, 73, 101)
  {
    LaterRow(PT5, 73, 101);
  }

  lemma SmallTableIsSound()
    ensures PrimesBetween(PT, 0, 101) && |PT| == 25 && PT[24] == 97
  {
    FirstRow();
    PrimeRow2();
    PrimeRow3();
    PrimeRow4();
    PrimeRow5();
    RowsConcat(PT1, PT2, 0, 11, 31);
    RowsConcat(PT3, PT4, 31, 53, 73);
    RowsConcat(PT3 + PT4, PT5, 31, 73, 101);
    RowsConcat(PT1 + PT2, (PT3 + PT4) + PT5, 0, 31, 101);
  }

  lemma PrimesSuffix(out: seq<nat>, k: nat, from: nat, to: nat)
    requires PrimesBetween(out, 0, to) && k < |out| && from <= out[k]
    requires forall i :: 0 <= i < k ==> out[i] < from
    ensures PrimesBetween(out[k..], from, to)
  {
    forall n: nat
      ensures n in out[k..] <==> from <= n < to && IsPrime(n)
    {
      if n in out {
        var i :| 0 <= i < |out| && out[i] == n;
        assert i >= k ==> out[k..][i - k] == n;
      }
    }
  }

  /** The quick list: the table entries from the first one that is not below `start`. */
  method QuickList(start: nat, pt: seq<nat>) returns (out: seq<nat>)
    requires PrimesBetween(pt, 0, 101) && |pt| == 25 && start <= pt[24]
    ensures PrimesBetween(out, start, 101)
  {
    var fp := 0;
    while pt[fp] < start
      invariant 0 <= fp < |pt|
      invariant forall k :: 0 <= k < fp ==> pt[k] < start
      decreases |pt| - fp
    {
      fp := fp + 1;
    }
    ghost var first := fp;
    PrimesSuffix(pt, first, start, 101);
    out := [];
    var more := true;
    while more
      invariant first <= fp <= |pt| && more == (fp < |pt|)
      invariant out == pt[first..fp]
      decreases |pt| - fp
    {
      out := out + [pt[fp]];
      fp := fp + 1;
      more := fp < |pt|;
    }
    assert pt[first..fp] == pt[first..];
  }

  lemma NextPair(out: seq<nat>, from: nat, n: nat)
    requires PrimesBetween(out, from, n) && from <= n && n % 2 == 1 && n >= 3
    ensures PrimesBetween(if IsPrime(n) then out + [n] else out, from, n + 2)
  {
    PrimesExtend(out, from, n);
    EvenExtend(if IsPrime(n) then out + [n] else out, from, n + 1);
  }

  /** Among the odd numbers of the window the unmarked ones are the primes. */
  ghost predicate WindowSieved(table: seq<bv8>, first: nat) {
    && |table| == TABSIZE
    && forall i :: 0 <= i < TABBITS && i % 2 == 0 ==> (!Marked(table, i) <==> IsPrime(first + i))
  }

  lemma OddAndEven(a: nat, b: nat)
    requires a % 2 == 1 && b % 2 == 0
    ensures (a + b) % 2 == 1
  {
  }

  lemma SievedByFactors(table: seq<bv8>, first: nat, used: set<nat>)
    requires |table| == TABSIZE && first >= 99 && first % 2 == 1 && MarksAre(table, first, used)
    requires EnoughFactors(used, first, SquareRoot(first + TABBITS))
    ensures WindowSieved(table, first)
  {
    hide MarksAre, EnoughFactors, SquareRoot, Marked, IsPrime;
    forall i | 0 <= i < TABBITS && i % 2 == 0
      ensures !Marked(table, i) <==> IsPrime(first + i)
    {
      OddAndEven(first, i);
      UnmarkedIffPrime(table, first, used, i);
    }
  }

  lemma UnmarkedBit(table: seq<bv8>, first: nat, i: nat)
    requires WindowSieved(table, first) && i < TABBITS && i % 2 == 0 && first % 2 == 1
    ensures |table| == TABSIZE && (table[i / 8] & BitMask(i % 8) == 0 <==> IsPrime(first + i))
    ensures (first + i) % 2 == 1
  {
    hide IsPrime, BitMask;
    assert !Marked(table, i) <==> IsPrime(first + i);
    OddAndEven(first, i);
  }

  /** Print the unmarked odd numbers of a window; `start` moves on by 2 each time. */
  method PrintWindow(table: array<bv8>, first: nat, from: nat, out0: seq<nat>) returns (start: nat, out: seq<nat>)
    requires table.Length == TABSIZE && first >= 99 && first % 2 == 1 && from <= first
    requires WindowSieved(table[..], first)
    requires PrimesBetween(out0, from, first)
    ensures start == first + TABBITS
    ensures PrimesBetween(out, from, start)
  {
    hide PrimesBetween, WindowSieved;
    start, out := first, out0;
    var i := 0;
    while i < 8 * TABSIZE
      invariant 0 <= i <= 8 * TABSIZE && i % 2 == 0
      invariant start == first + i
      invariant PrimesBetween(out, from, start)
    {
      out := PrintOne(table, first, i, from, out);
      start := start + 2;
      i := i + 2;
    }
  }

  /** The number at offset i, if it is unmarked. */
  method PrintOne(table: array<bv8>, first: nat, i: nat, from: nat, out0: seq<nat>) returns (out: seq<nat>)
    requires table.Length == TABSIZE && first >= 99 && first % 2 == 1 && from <= first && i < TABBITS && i % 2 == 0
    requires WindowSieved(table[..], first) && PrimesBetween(out0, from, first + i)
    ensures PrimesBetween(out, from, first + i + 2)
  {
    hide PrimesBetween, IsPrime, BitMask, WindowSieved;
    UnmarkedBit(table[..], first, i);
    NextPair(out0, from, first + i);
    out := if table[i / 8] & BitMask(i % 8) == 0 then out0 + [first + i] else out0;
  }

  function FirstWindow(start: nat): nat {
    if start <= 97 then 101 else start / 2 * 2 + 1
  }

  /** What comes before the first window, and where that starts. */
  method PrintSmall(start0: nat) returns (start: nat, out: seq<nat>)
    ensures start == FirstWindow(start0) && start % 2 == 1 && start >= 99 && start >= start0
    ensures PrimesBetween(out, start0, start)
  {
    hide IsPrime;
    start := start0;
    out := [];
    if start <= 97 {
      SmallTableIsSound();
      hide PrimesBetween;
      out := QuickList(start, PT);
      start := 100;
    }
    var quot := start / 2;
    start := quot * 2 + 1;
    if start0 > 97 && start == start0 + 1 {
      EvenExtend(out, start0, start0);
    }
  }

  /**
   * The main program, stopped after `windows` turns of its endless loop: it has printed
   * exactly the primes from the requested number up to where the last window ends, in order.
   */
  method PrintPrimes(start0: nat, windows: nat) returns (out: seq<nat>)
    ensures PrimesBetween(out, start0, FirstWindow(start0) + windows * TABBITS)
  {
    hide PrimesBetween, IsPrime, MarksAre, EnoughFactors, WindowSieved, FirstWindow, SquareRoot;
    var start;
    start, out := PrintSmall(start0);
    var table := new bv8[TABSIZE];
    WheelIsSound();
    var k := 0;
    while k < windows
      invariant 0 <= k <= windows
      invariant start == FirstWindow(start0) + k * TABBITS && start % 2 == 1 && start >= 99
      invariant PrimesBetween(out, start0, start)
    {
      var v := SquareRoot(start + TABBITS);
      SquareRootBelow(start, v);
      ghost var used := SieveWindow(table, start, v, FACTAB);
      SievedByFactors(table[..], start, used);
      start, out := PrintWindow(table, start, start0, out);
      k := k + 1;
    }
  }
}
