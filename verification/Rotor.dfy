/**
 * The encryption machine of bin/ed.c: `crinit` builds three tables from a stream of
 * random bytes, `crblock` applies them in place to a buffer that starts at any offset.
 */
module Rotor {
  import opened Numbers

  const SIZE := 256

  type byte = x: int | 0 <= x < 256

  /** `perm` is a permutation of the bytes and `inverse` undoes it on both sides. */
  ghost predicate Inverses(perm: seq<byte>, inverse: seq<byte>) {
    && |perm| == SIZE == |inverse|
    && (forall i :: 0 <= i < SIZE ==> inverse[perm[i]] == i)
    && (forall j :: 0 <= j < SIZE ==> perm[inverse[j]] == j)
  }

  /** `pairing` exchanges the bytes in pairs, leaving none in place. */
  ghost predicate PairsOff(pairing: seq<byte>) {
    && |pairing| == SIZE
    && (forall i :: 0 <= i < SIZE ==> pairing[i] != i)
    && (forall i :: 0 <= i < SIZE ==> pairing[pairing[i]] == i)
  }

  // ----- building the tables

  function Zeros(s: seq<byte>): nat {
    if s == [] then 0 else Zeros(s[..|s| - 1]) + (if s[|s| - 1] == 0 then 1 else 0)
  }

  lemma {:induction false} ZerosAll(s: seq<byte>)
    requires forall i :: 0 <= i < |s| ==> s[i] == 0
    ensures Zeros(s) == |s|
  {
    if s != [] {
      ZerosAll(s[..|s| - 1]);
    }
  }

  lemma {:induction false} ZeroFound(s: seq<byte>) returns (z: nat)
    requires Zeros(s) > 0
    ensures z < |s| && s[z] == 0
  {
    if s[|s| - 1] == 0 {
      z := |s| - 1;
    } else {
      z := ZeroFound(s[..|s| - 1]);
    }
  }

  lemma {:induction false} ZerosUpdate(s: seq<byte>, i: nat, b: byte)
    requires i < |s| && s[i] == 0 && b != 0
    ensures Zeros(s[i := b]) == Zeros(s) - 1
  {
    var t, last := s[i := b], |s| - 1;
    if i == last {
      assert t[..last] == s[..last];
    } else {
      assert t[..last] == s[..last][i := b];
      ZerosUpdate(s[..last], i, b);
    }
  }

  /** What is settled about the pairing once every index above k has been dealt with. */
  ghost predicate PairedAbove(t: seq<byte>, k: int) {
    && |t| == SIZE && -1 <= k < SIZE
    && (forall m :: k < m < SIZE ==> t[m] != m)
    && (forall m :: k < m < SIZE ==> t[t[m]] == m)
    && (forall m :: 0 <= m <= k ==> t[m] == 0 || t[m] > k)
    && (forall m :: 0 <= m <= k && t[m] != 0 ==> t[t[m]] == m)
  }

  lemma TwoZerosGone(t: seq<byte>, k: nat, c: nat)
    requires |t| == SIZE && c < k < SIZE && t[k] == 0 && t[c] == 0
    ensures Zeros(t[k := c][c := k][..k]) == Zeros(t[..k + 1]) - 2
  {
    assert t[k := c][c := k][..k] == t[..k][c := k];
    ZerosUpdate(t[..k], c, k);
    assert t[..k + 1][..k] == t[..k];
  }

  /** Pairing k with a free index below it. */
  lemma PairUp(t: seq<byte>, k: nat, c: nat)
    requires PairedAbove(t, k) && c < k && t[k] == 0 && t[c] == 0
    ensures var u := t[k := c][c := k];
      PairedAbove(u, k - 1) && Zeros(u[..k]) == Zeros(t[..k + 1]) - 2
  {
    var u := t[k := c][c := k];
    TwoZerosGone(t, k, c);
    hide Zeros;
    forall m | k < m < SIZE
      ensures t[m] != k && t[m] != c
    {
      assert t[t[m]] == m;
    }
  }

  /** An index that already has a partner is passed over. */
  lemma AlreadyPaired(t: seq<byte>, k: nat)
    requires PairedAbove(t, k) && t[k] != 0
    ensures PairedAbove(t, k - 1) && Zeros(t[..k]) == Zeros(t[..k + 1])
  {
    assert t[..k + 1][..k] == t[..k];
  }

  lemma FreeIndexBelow(t: seq<byte>, k: nat) returns (z: nat)
    requires |t| == SIZE && k < SIZE && t[k] == 0 && Zeros(t[..k + 1]) % 2 == 0
    ensures z < k && t[z] == 0
  {
    assert t[..k + 1][..k] == t[..k];
    z := ZeroFound(t[..k]);
  }

  function Around(n: nat, k: nat): (r: nat)
    requires k > 0
    ensures r < k
    ensures n < k ==> r == n
    ensures n == k ==> r == 0
  {
    if n == k then
      DivModUnique(n, k, 1, 0);
      n % k
    else if n < k then
      DivModUnique(n, k, 0, n);
      n % k
    else n % k
  }

  /** The search for a free partner: from `first` upwards, wrapping at k. */
  method FindPartner(t3: array<byte>, k: nat, random: byte) returns (ic: byte)
    requires t3.Length == SIZE && k < SIZE && t3[k] == 0
    requires Zeros(t3[..k + 1]) % 2 == 0
    ensures ic < k && t3[ic] == 0 && FirstFree(t3[..], k, random % k, ic)
  {
    ghost var z := FreeIndexBelow(t3[..], k) by {
      assert t3[..][..k + 1] == t3[..k + 1];
    }
    ic := Around(random, k);
    ghost var start := ic;
    while t3[ic] != 0
      invariant 0 <= ic < k && start == random % k && FirstFree(t3[..], k, start, ic)
      decreases if ic <= z then z - ic else z - ic + k
    {
      ic := Around(ic + 1, k);
    }
  }

  /** From `start` up to ic, going round at k, nothing is free. */
  ghost predicate FirstFree(t: seq<byte>, k: nat, start: nat, ic: nat)
    requires start < k <= |t| && ic < k
  {
    if start <= ic then forall m :: start <= m < ic ==> t[m] != 0
    else forall m :: start <= m < k || 0 <= m < ic ==> t[m] != 0
  }

  /** The first wheel after n of the draws: an index is exchanged with one that is not above it. */
  function Mixed(draws: seq<(byte, byte)>, n: nat): (t: seq<byte>)
    requires n <= SIZE && n <= |draws|
    ensures |t| == SIZE
  {
    if n == 0 then seq(SIZE, i requires 0 <= i < SIZE => i as byte)
    else
      var t, k := Mixed(draws, n - 1), SIZE - n;
      var ic := draws[n - 1].0 % (k + 1);
      t[k := t[ic]][ic := t[k]]
  }

  lemma {:induction false} MixedInverse(draws: seq<(byte, byte)>, n: nat) returns (inverse: seq<byte>)
    requires n <= SIZE && n <= |draws|
    ensures Inverses(Mixed(draws, n), inverse)
  {
    if n == 0 {
      inverse := Mixed(draws, 0);
    } else {
      var was := MixedInverse(draws, n - 1);
      var t, k := Mixed(draws, n - 1), SIZE - n;
      var ic := draws[n - 1].0 % (k + 1);
      SwapKeepsInverses(t, was, k, ic);
      inverse := was[t[ic] := k][t[k] := ic];
    }
  }

  lemma {:induction false} MixedSame(a: seq<(byte, byte)>, b: seq<(byte, byte)>, n: nat)
    requires n <= SIZE && n <= |a| && a <= b
    ensures Mixed(a, n) == Mixed(b, n)
  {
    if n > 0 {
      MixedSame(a, b, n - 1);
    }
  }

  /** Draws that bring the last n entries of the wheel to those of a given permutation. */
  lemma {:induction false} LastEntries(wheel: seq<byte>, inverse: seq<byte>, n: nat) returns (draws: seq<(byte, byte)>)
    requires Inverses(wheel, inverse) && n <= SIZE
    ensures |draws| == n && forall m :: SIZE - n <= m < SIZE ==> Mixed(draws, n)[m] == wheel[m]
  {
    if n == 0 {
      draws := [];
    } else {
      var front := LastEntries(wheel, inverse, n - 1);
      var t, k := Mixed(front, n - 1), SIZE - n;
      var back := MixedInverse(front, n - 1);
      var ic: byte := back[wheel[k]];
      assert inverse[wheel[ic]] == ic && inverse[wheel[k]] == k;
      assert ic <= k;
      hide Inverses;
      draws := front + [(ic, 0)];
      MixedSame(front, draws, n - 1);
      assert ic % (k + 1) == ic by {
        DivModUnique(ic, k + 1, 0, ic);
      }
    }
  }

  /** Every permutation can come out as the first wheel. */
  lemma {:induction false} EveryWheel(wheel: seq<byte>, inverse: seq<byte>) returns (draws: seq<(byte, byte)>)
    requires Inverses(wheel, inverse)
    ensures |draws| == SIZE && Mixed(draws, SIZE) == wheel
  {
    draws := LastEntries(wheel, inverse, SIZE);
  }

  lemma SwapKeepsInverses(perm: seq<byte>, inverse: seq<byte>, a: nat, b: nat)
    requires Inverses(perm, inverse) && a < SIZE && b < SIZE
    ensures Inverses(perm[a := perm[b]][b := perm[a]], inverse[perm[b] := a][perm[a] := b])
  {
  }

  /**
   * `crinit` after the key has been turned into a stream of draws: draw i supplies the
   * low byte and the high byte of the i-th random number.
   */
  method BuildTables(t1: array<byte>, t2: array<byte>, t3: array<byte>, draws: seq<(byte, byte)>)
    requires t1.Length == SIZE == t2.Length && t3.Length == SIZE
    requires t1 != t2 && t1 != t3 && t2 != t3
    requires |draws| == SIZE
    modifies t1, t2, t3
    ensures Inverses(t1[..], t2[..]) && t1[..] == Mixed(draws, SIZE)
    ensures PairsOff(t3[..])
  {
    hide Zeros, Inverses, Mixed;
    ClearTables(t1, t3);
    NothingMixed(t1[..], draws);
    ghost var inverse: seq<byte> := t1[..];
    ZerosAll(t3[..SIZE]);
    var i := 0;
    while i < SIZE
      invariant 0 <= i <= SIZE
      invariant Inverses(t1[..], inverse) && t1[..] == Mixed(draws, i)
      invariant PairedAbove(t3[..], SIZE - 1 - i)
      invariant Zeros(t3[..SIZE - i]) % 2 == 0
    {
      var k := SIZE - 1 - i;
      inverse := Exchange(t1, k, draws[i].0, inverse);
      MixedNext(draws, i);
      Pair(t3, k, draws[i].1);
      i := i + 1;
    }
    Invert(t1, t2, inverse);
  }

  lemma NothingMixed(t: seq<byte>, draws: seq<(byte, byte)>)
    requires |t| == SIZE && forall i :: 0 <= i < SIZE ==> t[i] == i
    ensures t == Mixed(draws, 0)
  {
  }

  lemma MixedNext(draws: seq<(byte, byte)>, n: nat)
    requires n < SIZE && n < |draws|
    ensures var t, k := Mixed(draws, n), SIZE - 1 - n;
      var ic := draws[n].0 % (k + 1); Mixed(draws, n + 1) == t[k := t[ic]][ic := t[k]]
  {
  }

  /** The first half of one pass: index k is exchanged with one that is not above it. */
  method Exchange(t1: array<byte>, k: nat, random: byte, ghost was: seq<byte>) returns (ghost inverse: seq<byte>)
    requires t1.Length == SIZE && k < SIZE && Inverses(t1[..], was)
    modifies t1
    ensures var t, ic := old(t1[..]), random % (k + 1); t1[..] == t[k := t[ic]][ic := t[k]]
    ensures Inverses(t1[..], inverse)
  {
    var ic: byte := Around(random, k + 1);
    SwapKeepsInverses(t1[..], was, k, ic);
    inverse := was[t1[ic] := k][t1[k] := ic];
    hide Inverses;
    var temp := t1[k];
    t1[k] := t1[ic];
    t1[ic] := temp;
  }

  /** Index k and the first free one from `random` on, going round below k, are partners now. */
  ghost predicate Partnered(was: seq<byte>, now: seq<byte>, k: nat, random: nat, ic: nat) {
    && ic < k < |was| && k < SIZE && was[ic] == 0
    && FirstFree(was, k, random % k, ic) && now == was[k := ic as byte][ic := k as byte]
  }

  /** The second half of one pass: index k gets a partner below it, unless it has one already. */
  method Pair(t3: array<byte>, k: nat, random: byte)
    requires t3.Length == SIZE && k < SIZE && PairedAbove(t3[..], k) && Zeros(t3[..k + 1]) % 2 == 0
    modifies t3
    ensures PairedAbove(t3[..], k - 1) && Zeros(t3[..k]) % 2 == 0
    ensures old(t3[k]) != 0 ==> t3[..] == old(t3[..])
    ensures old(t3[k]) == 0 ==> exists ic: nat :: Partnered(old(t3[..]), t3[..], k, random, ic)
  {
    hide PairedAbove, Zeros, FirstFree;
    assert t3[..][..k + 1] == t3[..k + 1] && t3[..][..k] == t3[..k];
    if t3[k] != 0 {
      AlreadyPaired(t3[..], k);
      return;
    }
    var ic := FindPartner(t3, k, random);
    PairUp(t3[..], k, ic);
    ghost var before: seq<byte> := t3[..];
    t3[k] := ic;
    t3[ic] := k;
    assert t3[..] == before[k := ic as byte][ic := k as byte];
    assert t3[..k] == t3[..][..k];
    assert Partnered(before, t3[..], k, random, ic);
  }

  method ClearTables(t1: array<byte>, t3: array<byte>)
    requires t1.Length == SIZE == t3.Length && t1 != t3
    modifies t1, t3
    ensures Inverses(t1[..], t1[..])
    ensures forall i :: 0 <= i < SIZE ==> t1[i] == i && t3[i] == 0
  {
    var i := 0;
    while i < SIZE
      invariant 0 <= i <= SIZE
      invariant forall m :: 0 <= m < i ==> t1[m] == m && t3[m] == 0
    {
      t1[i] := i;
      t3[i] := 0;
      i := i + 1;
    }
  }

  /** The last loop of `crinit`. */
  method Invert(t1: array<byte>, t2: array<byte>, ghost inverse: seq<byte>)
    requires t1.Length == SIZE == t2.Length && t1 != t2 && Inverses(t1[..], inverse)
    modifies t2
    ensures Inverses(t1[..], t2[..])
  {
    var i := 0;
    while i < SIZE
      invariant 0 <= i <= SIZE
      invariant t1[..] == old(t1[..])
      invariant forall j :: 0 <= j < SIZE && inverse[j] < i ==> t2[j] == inverse[j]
    {
      assert forall j :: 0 <= j < SIZE && inverse[j] == i ==> t1[..][inverse[j]] == j;
      t2[t1[i]] := i;
      i := i + 1;
    }
    assert t2[..] == inverse;
  }

  // ----- using the tables

  datatype Tables = Tables(t1: seq<byte>, t2: seq<byte>, t3: seq<byte>)
  {
    ghost predicate Valid() {
      Inverses(t1, t2) && PairsOff(t3)
    }
  }

  /** The mask & 0377, on the range in which it is used. */
  function Mask(b: int): byte
    requires -256 <= b < 512
  {
    if b < 0 then b + 256 else if b < 256 then b else b - 256
  }

  /** The rotor positions for the byte at offset n of the stream. */
  function Low(n: nat): byte { n % 256 }

  function High(n: nat): byte { n / 256 % 256 }

  lemma Advance(n: nat)
    ensures Low(n) < 255 ==> Low(n + 1) == Low(n) + 1 && High(n + 1) == High(n)
    ensures Low(n) == 255 ==> Low(n + 1) == 0 && High(n + 1) == if High(n) == 255 then 0 else High(n) + 1
  {
    var q, r := n / 256, n % 256;
    if r < 255 {
      DivModUnique(n + 1, 256, q, r + 1);
    } else {
      DivModUnique(n + 1, 256, q + 1, 0);
      DivModUnique(q + 1, 256, if q % 256 == 255 then q / 256 + 1 else q / 256,
        if q % 256 == 255 then 0 else q % 256 + 1);
    }
  }

  /** One byte through the machine with rotor positions n1 and n2. */
  function CryptByte(t: Tables, n1: byte, n2: byte, b: byte): byte
    requires |t.t1| == SIZE == |t.t2| && |t.t3| == SIZE
  {
    Mask(t.t2[Mask(t.t3[Mask(t.t1[Mask(b + n1)] + n2)] - n2)] - n1)
  }

  /** A buffer whose first byte stands at offset `start` of the stream. */
  function Crypted(t: Tables, s: seq<byte>, start: nat): (r: seq<byte>)
    requires |t.t1| == SIZE == |t.t2| && |t.t3| == SIZE
    ensures |r| == |s|
    ensures forall i :: 0 <= i < |s| ==> r[i] == CryptByte(t, Low(start + i), High(start + i), s[i])
  {
    seq(|s|, i requires 0 <= i < |s| => CryptByte(t, Low(start + i), High(start + i), s[i]))
  }

  lemma MaskBack(b: byte, n: byte)
    ensures Mask(Mask(b + n) - n) == b && Mask(Mask(b - n) + n) == b
  {
  }

  lemma CryptByteTwice(t: Tables, n1: byte, n2: byte, b: byte)
    requires t.Valid()
    ensures CryptByte(t, n1, n2, CryptByte(t, n1, n2, b)) == b
    ensures CryptByte(t, n1, n2, b) != b
  {
    var x := Mask(b + n1);
    var y := Mask(t.t1[x] + n2);
    var v := Mask(t.t3[y] - n2);
    var w := t.t2[v];
    MaskBack(w, n1);
    MaskBack(t.t3[y], n2);
    MaskBack(t.t1[x], n2);
    MaskBack(b, n1);
    assert Mask(CryptByte(t, n1, n2, b) + n1) == w;
    assert t.t1[w] == v;
    assert Mask(t.t1[w] + n2) == t.t3[y];
    assert t.t3[t.t3[y]] == y;
    assert t.t2[t.t1[x]] == x;
  }

  /** Encrypting twice at the same offset gives the buffer back. */
  lemma CryptedTwice(t: Tables, s: seq<byte>, start: nat)
    requires t.Valid()
    ensures Crypted(t, Crypted(t, s, start), start) == s
  {
    forall i | 0 <= i < |s|
      ensures Crypted(t, Crypted(t, s, start), start)[i] == s[i]
    {
      CryptByteTwice(t, Low(start + i), High(start + i), s[i]);
    }
  }

  /** No byte is ever encrypted to itself. */
  lemma CryptedNowhereEqual(t: Tables, s: seq<byte>, start: nat, i: nat)
    requires t.Valid() && i < |s|
    ensures Crypted(t, s, start)[i] != s[i]
  {
    CryptByteTwice(t, Low(start + i), High(start + i), s[i]);
  }

  lemma MaskIs(b: int)
    requires -256 <= b < 512
    ensures Mask(b) == b % 256
  {
  }

  /**
   * The byte at offset n of the stream becomes c if and only if both, behind the first wheel, which
   * has turned by one for every byte, and behind the second, which has turned by one for every 256
   * bytes, are partners.
   */
  lemma CryptedMeaning(t: Tables, s: seq<byte>, start: nat, i: nat, c: byte)
    requires t.Valid() && i < |s|
    ensures var n := start + i;
      Crypted(t, s, start)[i] == c <==>
      t.t3[(t.t1[(s[i] + n % 256) % 256] + n / 256 % 256) % 256] == (t.t1[(c + n % 256) % 256] + n / 256 % 256) % 256
  {
    hide Low, High;
    var n1, n2 := Low(start + i), High(start + i);
    ByteMeaning(t, n1, n2, s[i], c);
    PositionsAre(start + i);
  }

  lemma PositionsAre(n: nat)
    ensures Low(n) == n % 256 && High(n) == n / 256 % 256
  {
  }

  lemma ByteMeaning(t: Tables, n1: byte, n2: byte, b: byte, c: byte)
    requires t.Valid()
    ensures CryptByte(t, n1, n2, b) == c <==>
      t.t3[(t.t1[(b + n1) % 256] + n2) % 256] == (t.t1[(c + n1) % 256] + n2) % 256
  {
    hide Mask;
    MaskIs(b + n1);
    MaskIs(c + n1);
    var x := t.t1[Mask(b + n1)];
    var z := t.t1[Mask(c + n1)];
    MaskIs(x + n2);
    MaskIs(z + n2);
    var v := t.t3[Mask(x + n2)];
    var w := t.t2[Mask(v - n2)];
    MaskBack(w, n1);
    MaskBack(c, n1);
    MaskBack(v, n2);
    MaskBack(z, n2);
    assert t.t1[w] == Mask(v - n2);
    assert t.t2[z] == Mask(c + n1);
  }

  /** Encrypting a buffer in two pieces is encrypting it whole. */
  lemma CryptedSplit(t: Tables, a: seq<byte>, b: seq<byte>, start: nat)
    requires |t.t1| == SIZE == |t.t2| && |t.t3| == SIZE
    ensures Crypted(t, a + b, start) == Crypted(t, a, start) + Crypted(t, b, start + |a|)
  {
    hide Low, High, CryptByte;
    forall i | 0 <= i < |a + b|
      ensures Crypted(t, a + b, start)[i] == (Crypted(t, a, start) + Crypted(t, b, start + |a|))[i]
    {
      if i >= |a| {
        assert start + |a| + (i - |a|) == start + i;
      }
    }
  }

  /** `crblock`: the two rotor positions are advanced byte by byte, the second one on each wrap of the first. */
  method CryptBlock(t1: array<byte>, t2: array<byte>, t3: array<byte>, buf: array<byte>, startn: nat)
    requires t1.Length == SIZE == t2.Length && t3.Length == SIZE
    requires buf != t1 && buf != t2 && buf != t3
    modifies buf
    ensures buf[..] == Crypted(Tables(t1[..], t2[..], t3[..]), old(buf[..]), startn)
  {
    hide Low, High;
    var n1: int := Low(startn);
    var n2: int := High(startn);
    var p1 := 0;
    ghost var tables := Tables(t1[..], t2[..], t3[..]);
    while p1 < buf.Length
      invariant 0 <= p1 <= buf.Length
      invariant t1[..] == tables.t1 && t2[..] == tables.t2 && t3[..] == tables.t3
      invariant n1 == Low(startn + p1) && n2 == High(startn + p1)
      invariant buf[..p1] == Crypted(tables, old(buf[..]), startn)[..p1]
      invariant buf[p1..] == old(buf[..])[p1..]
    {
      var x := t1[Mask(buf[p1] + n1)];
      var y := t3[Mask(x + n2)];
      assert buf[p1] == old(buf[..])[p1];
      buf[p1] := Mask(t2[Mask(y - n2)] - n1);
      Advance(startn + p1);
      n1 := n1 + 1;
      if n1 == 256 {
        n1 := 0;
        n2 := n2 + 1;
        if n2 == 256 {
          n2 := 0;
        }
      }
      p1 := p1 + 1;
    }
    assert buf[..] == buf[..p1];
  }
}
