/**
 * The swap area of a process, as bin/ps.c, etc/analyze.c and etc/pstat.c walk it: extents
 * that double in size from dmmin up to dmmax.
 */
module SwapMap {

  datatype Sizes = Sizes(dmmin: int, dmmax: int)
  {
    predicate Ok() {
      dmmin >= 1
    }

    /** The next extent is twice as long while the current one is shorter than dmmax. */
    function Next(blk: int): int {
      if blk < dmmax then blk * 2 else blk
    }

    function Block(i: nat): (b: int)
      requires Ok()
      ensures b >= 1
    {
      if i == 0 then dmmin else Next(Block(i - 1))
    }

    /** The number of the first block of extent i: the total of the extents before it. */
    function Start(i: nat): (s: int)
      requires Ok()
      ensures s >= i
    {
      if i == 0 then 0 else Start(i - 1) + Block(i - 1)
    }

    /** Virtual block v lies in extent i. */
    predicate In(v: int, i: nat)
      requires Ok()
    {
      Start(i) <= v < Start(i + 1)
    }

    /** The extent of block v, looked for from extent i on. */
    function Holding(v: nat, i: nat := 0): (e: nat)
      requires Ok() && Start(i) <= v
      ensures In(v, e)
      decreases v - i
    {
      if v < Start(i + 1) then i else Holding(v, i + 1)
    }
  }

  lemma {:induction false} StartGrows(z: Sizes, i: nat, j: nat)
    requires z.Ok() && i < j
    ensures z.Start(i) + z.Block(i) <= z.Start(j)
    decreases j
  {
    if i < j - 1 {
      StartGrows(z, i, j - 1);
    }
  }

  /** A block lies in one extent only. */
  lemma {:induction false} OneExtent(z: Sizes, v: int, i: nat, j: nat)
    requires z.Ok() && z.In(v, i) && z.In(v, j)
    ensures i == j
  {
    if i < j {
      StartGrows(z, i, j);
    } else if j < i {
      StartGrows(z, j, i);
    }
  }

  // ----- where virtual blocks are

  /** The physical place of block v, which is in extent i; `rev` is for the stack, which grows downwards. */
  function Physical(z: Sizes, dmap: seq<int>, v: int, i: nat, rev: bool): int
    requires z.Ok() && i < |dmap| && z.In(v, i)
  {
    var off := v - z.Start(i);
    dmap[i] + if rev then z.Block(i) - 1 - off else off
  }

  /** No two extents of the map share a physical block. */
  ghost predicate Disjoint(z: Sizes, dmap: seq<int>)
    requires z.Ok()
  {
    forall i, j :: 0 <= i < j < |dmap| ==> dmap[i] + z.Block(i) <= dmap[j] || dmap[j] + z.Block(j) <= dmap[i]
  }

  /** Different virtual blocks are in different physical places. */
  lemma {:induction false} PhysicalInjective(z: Sizes, dmap: seq<int>, v: int, i: nat, w: int, j: nat, rev: bool)
    requires z.Ok() && Disjoint(z, dmap) && i < |dmap| && j < |dmap| && z.In(v, i) && z.In(w, j)
    ensures Physical(z, dmap, v, i, rev) == Physical(z, dmap, w, j, rev) <==> v == w
  {
    if i < j {
      StartGrows(z, i, j);
    } else if j < i {
      StartGrows(z, j, i);
    }
  }

  // ----- vstodb

  datatype Dblock = Panic | Dblock(base: int, size: int)

  /** The blocks from v on, `size` of them, are the physical blocks from `base` on, in order or in reverse order. */
  ghost predicate Contiguous(z: Sizes, dmap: seq<int>, i: nat, v: int, d: Dblock, rev: bool) {
    && z.Ok() && d.Dblock? && i < |dmap|
    && forall w :: v <= w < v + d.size ==>
      z.In(w, i) && Physical(z, dmap, w, i, rev) == d.base + if rev then v + d.size - 1 - w else w - v
  }

  /** The loop of `vstodb` that looks for the extent. */
  method FindExtent(z: Sizes, vsbase: int, ghost n: nat) returns (off: int, blk: int, ip: nat)
    requires z.Ok() && 0 <= vsbase < z.Start(n)
    ensures ip < n && z.In(vsbase, ip) && off == vsbase - z.Start(ip) && blk == z.Block(ip)
  {
    off, blk, ip := vsbase, z.dmmin, 0;
    while off >= blk
      invariant off == vsbase - z.Start(ip) && blk == z.Block(ip) && off >= 0 && ip < n
      decreases off
    {
      off := off - blk;
      blk := z.Next(blk);
      ip := ip + 1;
      if ip > n {
        StartGrows(z, n, ip);
      }
    }
  }

  /** The map has an extent i, within the swap area. */
  predicate Mapped(z: Sizes, dmap: seq<int>, nswap: int, i: nat)
    requires z.Ok()
  {
    i < |dmap| && 0 < dmap[i] <= nswap - z.Block(i)
  }

  /**
   * `vstodb` of bin/ps.c: the longest piece from vsbase on, of at most vssize blocks, that lies
   * in one extent, and where it is.
   */
  method Vstodb(z: Sizes, vsbase: int, vssize: int, dmap: seq<int>, dmsize: int, nswap: int, rev: bool)
    returns (d: Dblock)
    requires z.Ok() && vssize > 0 && dmsize <= z.Start(|dmap|)
    ensures d.Panic? <==>
      vsbase < 0 || vsbase + vssize > dmsize || !Mapped(z, dmap, nswap, z.Holding(vsbase))
    ensures d.Dblock? ==>
      var i := z.Holding(vsbase);
      && Contiguous(z, dmap, i, vsbase, d, rev)
      && 0 < d.size <= vssize && (d.size == vssize || vsbase + d.size == z.Start(i + 1))
      && dmap[i] <= d.base && d.base + d.size <= dmap[i] + z.Block(i)
  {
    if vsbase < 0 || vsbase + vssize > dmsize {
      return Panic;
    }
    var off, blk, ip := FindExtent(z, vsbase, |dmap|);
    OneExtent(z, vsbase, ip, z.Holding(vsbase));
    if dmap[ip] <= 0 || dmap[ip] + blk > nswap {
      return Panic;
    }
    var size := if vssize < blk - off then vssize else blk - off;
    var base := dmap[ip] + if rev then blk - (off + size) else off;
    d := Dblock(base, size);
  }

  // ----- vstodb of etc/analyze.c

  /** The answer of etc/analyze.c, which counts back from the size asked for and not from the size given. */
  function AnalyzeAnswer(z: Sizes, dmap: seq<int>, v: int, i: nat, vssize: int, rev: bool): Dblock
    requires z.Ok() && i < |dmap| && z.In(v, i)
  {
    var off := v - z.Start(i);
    var room := z.Block(i) - off;
    Dblock(dmap[i] + (if rev then z.Block(i) - (off + vssize) else off), if vssize < room then vssize else room)
  }

  method VstodbOfAnalyze(z: Sizes, vsbase: int, vssize: int, dmap: seq<int>, dmsize: int, rev: bool)
    returns (d: Dblock)
    requires z.Ok() && vssize > 0 && dmsize <= z.Start(|dmap|)
    ensures d.Panic? <==> vsbase < 0 || vsbase + vssize > dmsize
    ensures d.Dblock? ==> var i := z.Holding(vsbase); i < |dmap| && d == AnalyzeAnswer(z, dmap, vsbase, i, vssize, rev)
  {
    if vsbase < 0 || vsbase + vssize > dmsize {
      return Panic;
    }
    var off, blk, ip := FindExtent(z, vsbase, |dmap|);
    OneExtent(z, vsbase, ip, z.Holding(vsbase));
    d := Dblock(dmap[ip] + (if rev then blk - (off + vssize) else off),
      if vssize < blk - off then vssize else blk - off);
  }

  /** That answer is right unless it is for the stack and the request goes beyond the extent. */
  lemma {:induction false} AnalyzeRight(z: Sizes, dmap: seq<int>, v: int, i: nat, vssize: int, rev: bool)
    requires z.Ok() && i < |dmap| && z.In(v, i) && vssize > 0
    ensures Contiguous(z, dmap, i, v, AnalyzeAnswer(z, dmap, v, i, vssize, rev), rev) <==>
      !(rev && v + vssize > z.Start(i + 1))
  {
    var d := AnalyzeAnswer(z, dmap, v, i, vssize, rev);
    assert d.size > 0;
    assert Contiguous(z, dmap, i, v, d, rev) ==>
      Physical(z, dmap, v, i, rev) == d.base + if rev then d.size - 1 else 0;
  }

  /** With extents of 4 and 8 blocks, asking for blocks 3 and 4 of the stack gives a block before the extent. */
  lemma {:induction false} AnalyzeWrong()
    ensures var z := Sizes(4, 16);
      z.In(3, 0) && AnalyzeAnswer(z, [100, 200], 3, 0, 2, true) == Dblock(99, 1)
        && Physical(z, [100, 200], 3, 0, true) == 100
  {
    var z := Sizes(4, 16);
    assert z.Start(1) == z.Start(0) + z.Block(0) == 4;
  }

  // ----- up

  /** The extents that a segment of `size` blocks needs are the first n. */
  ghost predicate Needs(z: Sizes, size: int, n: nat)
    requires z.Ok()
  {
    forall i: nat :: z.Start(i) < size <==> i < n
  }

  lemma {:induction false} EnoughExtents(z: Sizes, size: int, n: nat)
    requires z.Ok() && z.Start(n) >= size && forall j: nat :: j < n ==> z.Start(j) < size
    ensures Needs(z, size, n) && forall j: nat :: z.Start(j) >= size ==> z.Start(n) <= z.Start(j)
  {
    forall j: nat | j > n
      ensures z.Start(n) <= z.Start(j)
    {
      StartGrows(z, n, j);
    }
  }

  lemma {:induction false} NextExtent(z: Sizes, i: nat)
    requires z.Ok()
    ensures z.Start(i + 1) == z.Start(i) + z.Block(i) && z.Block(i + 1) == z.Next(z.Block(i))
    ensures z.Start(0) == 0 && z.Block(0) == z.dmmin
  {
  }

  lemma {:induction false} Within(z: Sizes, i: nat, n: nat)
    requires z.Ok() && z.Start(i) < z.Start(n)
    ensures i < n
  {
    if n < i {
      StartGrows(z, n, i);
    }
  }

  /** `up` of etc/pstat.c: the total of the extents needed, the least such total that is not below the size. */
  method Up(z: Sizes, size: int) returns (r: int, ghost n: nat)
    requires z.Ok()
    ensures Needs(z, size, n) && r == z.Start(n) && r >= size
    ensures forall j: nat :: z.Start(j) >= size ==> r <= z.Start(j)
  {
    var i, block := 0, z.dmmin;
    n := 0;
    while i < size
      invariant i == z.Start(n) && block == z.Block(n)
      invariant forall j: nat :: j < n ==> z.Start(j) < size
      decreases size - i
    {
      i := i + block;
      block := z.Next(block);
      n := n + 1;
    }
    EnoughExtents(z, size, n);
    r := i;
  }

  /** `pdmseg` of etc/analyze.c: the extents in use, each with its full length. */
  method Pdmseg(z: Sizes, dmap: seq<int>, dmsize: int) returns (used: seq<(int, int)>)
    requires z.Ok() && dmsize <= z.Start(|dmap|)
    ensures Needs(z, dmsize, |used|) && |used| <= |dmap|
    ensures forall i :: 0 <= i < |used| ==> used[i] == (dmap[i], z.Block(i))
  {
    NextExtent(z, 0);
    hide Sizes.Start, Sizes.Block, Sizes.Next, Needs;
    var i, b, rem := 0, z.dmmin, dmsize;
    used := [];
    while rem > 0
      invariant rem == dmsize - z.Start(i) && b == z.Block(i) && |used| == i <= |dmap|
      invariant forall k :: 0 <= k < i ==> used[k] == (dmap[k], z.Block(k))
      invariant forall k: nat :: k < i ==> z.Start(k) < dmsize
      decreases rem
    {
      Within(z, i, |dmap|);
      NextExtent(z, i);
      used := used + [(dmap[i], b)];
      rem := rem - b;
      b := z.Next(b);
      i := i + 1;
    }
    EnoughExtents(z, dmsize, i);
  }
}
