/**
 * Cylinder groups of the fast file system: the bitmap of free fragments and the counters kept
 * beside it, as etc/mkfs.c and etc/mkproto.c make and use them and etc/icheck.c rebuilds them.
 * Positions in the bitmap are fragment numbers; a block is `frag` fragments on the grid.
 */
module CylinderGroup {
  import opened Numbers

  /** A multiple of frag. */
  predicate OnGrid(frag: nat, d: nat)
    requires frag > 0
  {
    d == 0 || (d >= frag && OnGrid(frag, d - frag))
  }

  lemma {:induction false} GridStep(frag: nat, a: nat, b: nat)
    requires frag > 0 && OnGrid(frag, a) && OnGrid(frag, b) && a < b
    ensures a + frag <= b
    decreases b
  {
    if b - frag < a {
      if a > 0 {
        GridStep(frag, a - frag, b - frag);
      }
    }
  }

  // ----- counting

  ghost predicate BlockFree(bits: seq<bool>, d: nat, frag: nat) {
    d + frag <= |bits| && forall i :: d <= i < d + frag ==> bits[i]
  }

  /** Where a block lies on the disk: its cylinder and its rotational position. */
  datatype Geometry = Geometry(cyl: nat -> nat, rpos: nat -> nat)

  /** The blocks that a counter is for: all, those of a cylinder, or those at a position of a cylinder. */
  datatype Selection = All | Cyl(c: nat) | Pos(c: nat, r: nat)

  predicate Selected(g: Geometry, s: Selection, d: nat) {
    match s
    case All => true
    case Cyl(c) => g.cyl(d) == c
    case Pos(c, r) => g.cyl(d) == c && g.rpos(d) == r
  }

  /** The selected free blocks below n. */
  ghost function Blocks(bits: seq<bool>, frag: nat, n: nat, g: Geometry, s: Selection): nat
    requires frag > 0
  {
    if n < frag then 0
    else
      Blocks(bits, frag, n - frag, g, s)
      + if BlockFree(bits, n - frag, frag) && Selected(g, s, n - frag) then 1 else 0
  }

  ghost function FreeIn(bits: seq<bool>, a: nat, b: nat): nat
    requires a <= b <= |bits|
    decreases b
  {
    if a == b then 0 else FreeIn(bits, a, b - 1) + if bits[b - 1] then 1 else 0
  }

  /** The free fragments below n that are not part of a free block. */
  ghost function Odd(bits: seq<bool>, frag: nat, n: nat): nat
    requires frag > 0 && n <= |bits|
    decreases n
  {
    if n < frag then 0
    else Odd(bits, frag, n - frag) + if BlockFree(bits, n - frag, frag) then 0 else FreeIn(bits, n - frag, n)
  }

  lemma {:induction false} FreeInSame(x: seq<bool>, y: seq<bool>, a: nat, b: nat)
    requires a <= b <= |x| && b <= |y| && forall i :: a <= i < b ==> x[i] == y[i]
    ensures FreeIn(x, a, b) == FreeIn(y, a, b)
    decreases b
  {
    if a < b {
      FreeInSame(x, y, a, b - 1);
    }
  }

  lemma {:induction false} FreeInAll(x: seq<bool>, a: nat, b: nat, v: bool)
    requires a <= b <= |x| && forall i :: a <= i < b ==> x[i] == v
    ensures FreeIn(x, a, b) == if v then b - a else 0
    decreases b
  {
    if a < b {
      FreeInAll(x, a, b - 1, v);
    }
  }

  lemma {:induction false} FreeInSplit(x: seq<bool>, a: nat, b: nat, c: nat)
    requires a <= b <= c <= |x|
    ensures FreeIn(x, a, c) == FreeIn(x, a, b) + FreeIn(x, b, c)
    decreases c
  {
    if b < c {
      FreeInSplit(x, a, b, c - 1);
    }
  }

  /** Counts below n depend on the bits below n only. */
  lemma {:induction false} BlocksSame(x: seq<bool>, y: seq<bool>, frag: nat, n: nat, g: Geometry, s: Selection)
    requires frag > 0 && n <= |x| == |y| && forall i :: 0 <= i < n ==> x[i] == y[i]
    ensures Blocks(x, frag, n, g, s) == Blocks(y, frag, n, g, s) && Odd(x, frag, n) == Odd(y, frag, n)
    decreases n
  {
    if n >= frag {
      BlocksSame(x, y, frag, n - frag, g, s);
      FreeInSame(x, y, n - frag, n);
    }
  }

  ghost function One(b: bool): nat {
    if b then 1 else 0
  }

  ghost function OddIn(bits: seq<bool>, d: nat, frag: nat): nat
    requires d + frag <= |bits|
  {
    if BlockFree(bits, d, frag) then 0 else FreeIn(bits, d, d + frag)
  }

  /** When one block changes, only its share of the counts changes. */
  lemma {:induction false} BlockChanged(x: seq<bool>, y: seq<bool>, frag: nat, n: nat, d: nat, g: Geometry,
    s: Selection)
    requires frag > 0 && n <= |x| == |y| && OnGrid(frag, n) && OnGrid(frag, d) && d + frag <= n
    requires forall i :: 0 <= i < n && !(d <= i < d + frag) ==> x[i] == y[i]
    ensures Blocks(y, frag, n, g, s) + One(BlockFree(x, d, frag) && Selected(g, s, d)) ==
      Blocks(x, frag, n, g, s) + One(BlockFree(y, d, frag) && Selected(g, s, d))
    ensures Odd(y, frag, n) + OddIn(x, d, frag) == Odd(x, frag, n) + OddIn(y, d, frag)
    decreases n
  {
    if n == d + frag {
      BlocksSame(x, y, frag, d, g, s);
    } else {
      GridStep(frag, d + frag, n);
      BlockChanged(x, y, frag, n - frag, d, g, s);
      FreeInSame(x, y, n - frag, n);
    }
  }

  lemma {:induction false} GridAfter(frag: nat, d: nat)
    requires frag > 0 && OnGrid(frag, d)
    ensures OnGrid(frag, d + frag)
  {
  }

  /** All free fragments are in free blocks or counted by themselves. */
  lemma {:induction false} AllFragments(bits: seq<bool>, frag: nat, n: nat, g: Geometry)
    requires frag > 0 && OnGrid(frag, n) && n <= |bits|
    ensures FreeIn(bits, 0, n) == Odd(bits, frag, n) + frag * Blocks(bits, frag, n, g, All)
    decreases n
  {
    if n > 0 {
      AllFragments(bits, frag, n - frag, g);
      FreeInSplit(bits, 0, n - frag, n);
      if BlockFree(bits, n - frag, frag) {
        FreeInAll(bits, n - frag, n, true);
        assert frag * (Blocks(bits, frag, n - frag, g, All) + 1) == frag * Blocks(bits, frag, n - frag, g, All) + frag;
      }
    }
  }

  /** If a block is counted, there is one. */
  lemma {:induction false} SomeBlock(bits: seq<bool>, frag: nat, n: nat, g: Geometry) returns (d: nat)
    requires frag > 0 && OnGrid(frag, n) && n <= |bits| && Blocks(bits, frag, n, g, All) > 0
    ensures OnGrid(frag, d) && d + frag <= n && BlockFree(bits, d, frag)
    decreases n
  {
    if BlockFree(bits, n - frag, frag) {
      d := n - frag;
    } else {
      d := SomeBlock(bits, frag, n - frag, g);
    }
  }

  // ----- the bytes of the map

  function OneBit(i: nat): bv8
    requires i < 8
  {
    if i == 0 then 0x01 else if i == 1 then 0x02 else if i == 2 then 0x04 else if i == 3 then 0x08
    else if i == 4 then 0x10 else if i == 5 then 0x20 else if i == 6 then 0x40 else 0x80
  }

  predicate HasBit(b: bv8, i: nat)
    requires i < 8
  {
    b & OneBit(i) != 0
  }

  /** The mask for block h in its byte: `0x0f << ((h & 0x1) << 2)` and the like. */
  function BlockMask(frag: nat, h: nat): bv8 {
    if frag == 8 then 0xff
    else if frag == 4 then if h % 2 == 0 then 0x0f else 0xf0
    else if frag == 2 then
      if h % 4 == 0 then 0x03 else if h % 4 == 1 then 0x0c else if h % 4 == 2 then 0x30 else 0xc0
    else OneBit(h % 8)
  }

  /** The mask of a block covers its fragments, and no others. */
  lemma MaskCovers(frag: nat, h: nat, i: nat)
    requires (frag == 1 || frag == 2 || frag == 4 || frag == 8) && i < 8
    ensures HasBit(BlockMask(frag, h), i) <==> i / frag == h % (8 / frag)
  {
    if frag == 1 {
      var k := h % 8;
      assert k == 0 || k == 1 || k == 2 || k == 3 || k == 4 || k == 5 || k == 6 || k == 7;
    }
    assert i == 0 || i == 1 || i == 2 || i == 3 || i == 4 || i == 5 || i == 6 || i == 7;
  }

  /** `setblock` and `clrblock` on a byte: exactly the fragments under the mask change. */
  lemma MaskSets(b: bv8, m: bv8, i: nat)
    requires i < 8
    ensures HasBit(b | m, i) <==> HasBit(b, i) || HasBit(m, i)
    ensures HasBit(b & !m, i) <==> HasBit(b, i) && !HasBit(m, i)
  {
    MaskOne(b, m, OneBit(i));
  }

  lemma MaskOne(b: bv8, m: bv8, o: bv8)
    requires o == 0x01 || o == 0x02 || o == 0x04 || o == 0x08 || o == 0x10 || o == 0x20 || o == 0x40 || o == 0x80
    ensures (b | m) & o != 0 <==> b & o != 0 || m & o != 0
    ensures (b & !m) & o != 0 <==> b & o != 0 && m & o == 0
  {
  }

  /** `isblock` on a byte: all the fragments under the mask are free. */
  lemma MaskTests(b: bv8, m: bv8)
    ensures b & m == m <==> forall i :: 0 <= i < 8 && HasBit(m, i) ==> HasBit(b, i)
  {
    hide HasBit;
    if b & m == m {
      forall i | 0 <= i < 8 && HasBit(m, i)
        ensures HasBit(b, i)
      {
        CoveredOne(b, m, i);
      }
    }
    if forall i :: 0 <= i < 8 && HasBit(m, i) ==> HasBit(b, i) {
      assert HasBit(m, 0) ==> HasBit(b, 0);
      assert HasBit(m, 1) ==> HasBit(b, 1);
      assert HasBit(m, 2) ==> HasBit(b, 2);
      assert HasBit(m, 3) ==> HasBit(b, 3);
      assert HasBit(m, 4) ==> HasBit(b, 4);
      assert HasBit(m, 5) ==> HasBit(b, 5);
      assert HasBit(m, 6) ==> HasBit(b, 6);
      assert HasBit(m, 7) ==> HasBit(b, 7);
      CoveredAll(b, m);
    }
  }

  lemma CoveredOne(b: bv8, m: bv8, i: nat)
    requires b & m == m && i < 8 && HasBit(m, i)
    ensures HasBit(b, i)
  {
    CoveredUnder(b, m, OneBit(i));
  }

  lemma CoveredUnder(b: bv8, m: bv8, o: bv8)
    requires b & m == m && m & o != 0
    ensures b & o != 0
  {
  }

  lemma CoveredAll(b: bv8, m: bv8)
    requires HasBit(m, 0) ==> HasBit(b, 0)
    requires HasBit(m, 1) ==> HasBit(b, 1)
    requires HasBit(m, 2) ==> HasBit(b, 2)
    requires HasBit(m, 3) ==> HasBit(b, 3)
    requires HasBit(m, 4) ==> HasBit(b, 4)
    requires HasBit(m, 5) ==> HasBit(b, 5)
    requires HasBit(m, 6) ==> HasBit(b, 6)
    requires HasBit(m, 7) ==> HasBit(b, 7)
    ensures b & m == m
  {
  }

  // ----- the map in bytes

  predicate FragOk(frag: nat) {
    frag == 1 || frag == 2 || frag == 4 || frag == 8
  }

  /** The fragments that a map of bytes says are free. */
  function FragmentsOf(cp: seq<bv8>): (bits: seq<bool>)
    ensures |bits| == 8 * |cp|
    ensures forall i :: 0 <= i < |bits| ==> bits[i] == HasBit(cp[i / 8], i % 8)
  {
    seq(8 * |cp|, i requires 0 <= i < 8 * |cp| => HasBit(cp[i / 8], i % 8))
  }

  /** The byte of block h. */
  function ByteOf(frag: nat, h: nat): nat
    requires FragOk(frag)
  {
    h / (8 / frag)
  }

  /** The first fragment of block h. */
  function FirstOf(frag: nat, h: nat): nat {
    h * frag
  }

  /** A fragment is in a block if it is in the block's byte, under the block's mask. */
  lemma InBlock(frag: nat, h: nat, i: nat)
    requires FragOk(frag)
    ensures FirstOf(frag, h) <= i < FirstOf(frag, h) + frag <==>
      i / 8 == ByteOf(frag, h) && HasBit(BlockMask(frag, h), i % 8)
  {
    hide HasBit, BlockMask, FirstOf, ByteOf;
    MaskCovers(frag, h, i % 8);
    if frag == 8 {
      EightAByte(h, i);
    } else if frag == 4 {
      FourAByte(h, i);
    } else if frag == 2 {
      TwoAByte(h, i);
    } else {
      OneAByte(h, i);
    }
  }

  lemma EightAByte(h: nat, i: nat)
    ensures FirstOf(8, h) <= i < FirstOf(8, h) + 8 <==> i / 8 == ByteOf(8, h) && i % 8 / 8 == h % 1
  {
  }

  lemma FourAByte(h: nat, i: nat)
    ensures FirstOf(4, h) <= i < FirstOf(4, h) + 4 <==> i / 8 == ByteOf(4, h) && i % 8 / 4 == h % 2
  {
    assert i == 8 * (i / 8) + i % 8 && h == 2 * (h / 2) + h % 2;
  }

  lemma TwoAByte(h: nat, i: nat)
    ensures FirstOf(2, h) <= i < FirstOf(2, h) + 2 <==> i / 8 == ByteOf(2, h) && i % 8 / 2 == h % 4
  {
    assert i == 8 * (i / 8) + i % 8 && h == 4 * (h / 4) + h % 4;
  }

  lemma OneAByte(h: nat, i: nat)
    ensures FirstOf(1, h) <= i < FirstOf(1, h) + 1 <==> i / 8 == ByteOf(1, h) && i % 8 / 1 == h % 8
  {
    assert i == 8 * (i / 8) + i % 8 && h == 8 * (h / 8) + h % 8;
  }

  lemma InByte(k: nat, i: nat)
    requires i < 8
    ensures (8 * k + i) / 8 == k && (8 * k + i) % 8 == i
  {
  }

  /** All fragments of a block are in its byte, and under its mask. */
  lemma BlockInByte(frag: nat, h: nat)
    requires FragOk(frag)
    ensures FirstOf(frag, h) + frag <= 8 * (ByteOf(frag, h) + 1)
    ensures forall i :: FirstOf(frag, h) <= i < FirstOf(frag, h) + frag ==>
      i / 8 == ByteOf(frag, h) && HasBit(BlockMask(frag, h), i % 8)
  {
    hide HasBit, BlockMask, ByteOf, FirstOf;
    InBlock(frag, h, FirstOf(frag, h) + frag - 1);
    forall i | FirstOf(frag, h) <= i < FirstOf(frag, h) + frag
      ensures i / 8 == ByteOf(frag, h) && HasBit(BlockMask(frag, h), i % 8)
    {
      InBlock(frag, h, i);
    }
  }

  /** And all bits under the mask are fragments of the block. */
  lemma ByteInBlock(frag: nat, h: nat)
    requires FragOk(frag)
    ensures forall i :: 0 <= i < 8 && HasBit(BlockMask(frag, h), i) ==>
      FirstOf(frag, h) <= 8 * ByteOf(frag, h) + i < FirstOf(frag, h) + frag
  {
    hide HasBit, BlockMask, ByteOf, FirstOf, FragOk;
    forall i | 0 <= i < 8 && HasBit(BlockMask(frag, h), i)
      ensures FirstOf(frag, h) <= 8 * ByteOf(frag, h) + i < FirstOf(frag, h) + frag
    {
      InByte(ByteOf(frag, h), i);
      InBlock(frag, h, 8 * ByteOf(frag, h) + i);
    }
  }

  /** The fragments of a block are the bits under its mask. */
  lemma BlockBits(cp: seq<bv8>, frag: nat, h: nat)
    requires FragOk(frag) && ByteOf(frag, h) < |cp|
    ensures BlockFree(FragmentsOf(cp), FirstOf(frag, h), frag) <==>
      forall i :: 0 <= i < 8 && HasBit(BlockMask(frag, h), i) ==> HasBit(cp[ByteOf(frag, h)], i)
  {
    hide HasBit, BlockMask, ByteOf, FirstOf, FragOk;
    BlockInByte(frag, h);
    ByteInBlock(frag, h);
    var k, bits := ByteOf(frag, h), FragmentsOf(cp);
    forall i | 0 <= i < 8 ensures 8 * k + i < |bits| && bits[8 * k + i] == HasBit(cp[k], i) {
      InByte(k, i);
    }
  }

  /** `isblock`: all fragments of block h are free. */
  method IsBlockIn(cp: array<bv8>, frag: nat, h: nat) returns (r: bool)
    requires FragOk(frag) && ByteOf(frag, h) < cp.Length
    ensures r == BlockFree(FragmentsOf(cp[..]), FirstOf(frag, h), frag)
  {
    hide HasBit, BlockMask, FirstOf;
    var mask, k := BlockMask(frag, h), ByteOf(frag, h);
    r := cp[k] & mask == mask;
    MaskTests(cp[k], mask);
    BlockBits(cp[..], frag, h);
  }

  /** `setblock` and `clrblock`: exactly the fragments of block h become free, or are taken. */
  method PutBlockIn(cp: array<bv8>, frag: nat, h: nat, v: bool)
    requires FragOk(frag) && ByteOf(frag, h) < cp.Length
    modifies cp
    ensures var was, now := FragmentsOf(old(cp[..])), FragmentsOf(cp[..]);
      forall i :: 0 <= i < |now| ==> now[i] == if FirstOf(frag, h) <= i < FirstOf(frag, h) + frag then v else was[i]
  {
    hide HasBit, BlockMask, FirstOf, ByteOf;
    ghost var was := cp[..];
    var mask, k := BlockMask(frag, h), ByteOf(frag, h);
    cp[k] := if v then cp[k] | mask else cp[k] & !mask;
    BlockPut(was, cp[..], frag, h, v);
  }

  lemma BlockPut(was: seq<bv8>, now: seq<bv8>, frag: nat, h: nat, v: bool)
    requires FragOk(frag) && ByteOf(frag, h) < |was| == |now|
    requires var k, m := ByteOf(frag, h), BlockMask(frag, h); now == was[k := if v then was[k] | m else was[k] & !m]
    ensures forall i :: 0 <= i < 8 * |now| ==>
      FragmentsOf(now)[i] == if FirstOf(frag, h) <= i < FirstOf(frag, h) + frag then v else FragmentsOf(was)[i]
  {
    hide HasBit, BlockMask, FirstOf, ByteOf;
    forall i | 0 <= i < 8 * |now|
      ensures FragmentsOf(now)[i] ==
        if FirstOf(frag, h) <= i < FirstOf(frag, h) + frag then v else FragmentsOf(was)[i]
    {
      InBlock(frag, h, i);
      MaskSets(was[ByteOf(frag, h)], BlockMask(frag, h), i % 8);
    }
  }

  // ----- the group

  function SumOf(wants: seq<nat>): nat {
    if wants == [] then 0 else SumOf(wants[..|wants| - 1]) + wants[|wants| - 1]
  }

  predicate InPiece(wants: seq<nat>, at: seq<nat>, k: nat, i: nat)
    requires k < |at| <= |wants|
  {
    at[k] <= i < at[k] + wants[k]
  }

  /** Piece k of `at` has wants[k] fragments; a fragment is free now if it was and is in no piece. */
  ghost predicate HandedOut(was: seq<bool>, now: seq<bool>, wants: seq<nat>, at: seq<nat>) {
    && |at| <= |wants| && |was| == |now|
    && (forall k, i: nat :: 0 <= k < |at| && InPiece(wants, at, k, i) ==> i < |was| && was[i])
    && (forall k, m, i: nat :: 0 <= k < m < |at| ==> !(InPiece(wants, at, k, i) && InPiece(wants, at, m, i)))
    && forall i: nat :: i < |was| ==>
      (now[i] <==> was[i] && forall k :: 0 <= k < |at| ==> !InPiece(wants, at, k, i))
  }

  lemma {:induction false} OneMorePiece(was: seq<bool>, mid: seq<bool>, now: seq<bool>, wants: seq<nat>, at: seq<nat>,
    d: nat)
    requires HandedOut(was, mid, wants, at) && |at| < |wants| && d + wants[|at|] <= |mid| == |now|
    requires forall i :: d <= i < d + wants[|at|] ==> mid[i]
    requires forall i :: 0 <= i < |mid| ==> now[i] == (mid[i] && !(d <= i < d + wants[|at|]))
    ensures HandedOut(was, now, wants, at + [d])
  {
    var more := at + [d];
    assert forall k, i: nat :: 0 <= k < |at| ==> (InPiece(wants, more, k, i) <==> InPiece(wants, at, k, i));
    assert forall i: nat :: InPiece(wants, more, |at|, i) <==> d <= i < d + wants[|at|];
    forall i: nat | i < |was|
      ensures now[i] <==> was[i] && forall k :: 0 <= k < |more| ==> !InPiece(wants, more, k, i)
    {
      if mid[i] {
        assert forall k :: 0 <= k < |at| ==> !InPiece(wants, at, k, i);
      }
      assert InPiece(wants, more, |at|, i) || !InPiece(wants, more, |at|, i);
    }
  }

  class Group {
    const frag: nat
    const g: Geometry
    const free: array<bool>       // cg_free, for as many fragments as a group can have
    var ndblk: nat                // fragments in this group
    var nbfree: int
    var nffree: int
    var btot: seq<int>
    var b: seq<seq<int>>

    ghost predicate Shape()
      reads this`btot, this`b
    {
      && frag > 0 && OnGrid(frag, free.Length)
      && (forall d :: g.cyl(d) < |btot|) && |b| == |btot|
      && (forall d :: g.rpos(d) < |b[g.cyl(d)]|)
    }

    /** The counters are right for the part of the bitmap below n. */
    ghost predicate CountsTo(n: nat)
      reads this`nbfree, this`nffree, this`btot, this`b, free
      requires frag > 0 && n <= free.Length
    {
      && nbfree == Blocks(free[..], frag, n, g, All)
      && nffree == Odd(free[..], frag, n)
      && (forall c :: 0 <= c < |btot| ==> btot[c] == Blocks(free[..], frag, n, g, Cyl(c)))
      && |b| == |btot|
      && (forall c, r :: 0 <= c < |b| && 0 <= r < |b[c]| ==> b[c][r] == Blocks(free[..], frag, n, g, Pos(c, r)))
    }

    /** All counters agree with the bitmap, which has nothing free beyond the end of the group. */
    ghost predicate Valid()
      reads this, free
    {
      && Shape() && CountsTo(free.Length) && ndblk <= free.Length
      && forall i :: ndblk <= i < free.Length ==> !free[i]
    }

    /** `setblock` and `clrblock` */
    method PutBlock(d: nat, v: bool)
      requires d + frag <= free.Length
      modifies free
      ensures forall i :: 0 <= i < free.Length ==> free[i] == if d <= i < d + frag then v else old(free[i])
    {
      var i := d;
      while i < d + frag
        invariant d <= i <= d + frag
        invariant forall k :: 0 <= k < free.Length ==> free[k] == if d <= k < i then v else old(free[k])
      {
        free[i] := v;
        i := i + 1;
      }
    }

    /** The counters after the block at d has become free (plus is 1) or is no longer free (plus is -1). */
    method CountBlock(d: nat, plus: int)
      requires Shape()
      modifies this`nbfree, this`btot, this`b
      ensures Shape() && nbfree == old(nbfree) + plus
      ensures |btot| == old(|btot|) && |b| == old(|b|)
      ensures forall c :: 0 <= c < |btot| ==> btot[c] == old(btot[c]) + if Selected(g, Cyl(c), d) then plus else 0
      ensures forall c :: 0 <= c < |b| ==> |b[c]| == old(|b[c]|)
      ensures forall c, r :: 0 <= c < |b| && 0 <= r < |b[c]| ==>
        b[c][r] == old(b[c][r]) + if Selected(g, Pos(c, r), d) then plus else 0
    {
      nbfree := nbfree + plus;
      var c, r := g.cyl(d), g.rpos(d);
      btot := btot[c := btot[c] + plus];
      b := b[c := b[c][r := b[c][r] + plus]];
    }

    /** `isblock` */
    method IsBlock(d: nat) returns (r: bool)
      requires d + frag <= free.Length
      ensures r == BlockFree(free[..], d, frag)
    {
      var i := d;
      while i < d + frag
        invariant d <= i <= d + frag && forall k :: d <= k < i ==> free[k]
      {
        if !free[i] {
          return false;
        }
        i := i + 1;
      }
      r := true;
    }

    /** The search of `alloc`; that no block can be found is an internal error, which does not happen. */
    method FindBlock() returns (d: nat)
      requires Valid() && nbfree > 0
      ensures OnGrid(frag, d) && d + frag <= ndblk && BlockFree(free[..], d, frag)
      ensures forall e :: 0 <= e < d && OnGrid(frag, e) ==> !BlockFree(free[..], e, frag)
    {
      ghost var some := SomeBlock(free[..], frag, free.Length, g);
      assert some + frag <= ndblk by {
        assert forall i :: some <= i < some + frag ==> free[i];
        assert frag > 0 && free[some + frag - 1];
      }
      d := 0;
      while true
        invariant OnGrid(frag, d) && d <= some
        invariant forall e :: 0 <= e < d && OnGrid(frag, e) ==> !BlockFree(free[..], e, frag)
        decreases some - d
      {
        var r := IsBlock(d);
        if r {
          assert free[d + frag - 1];
          return;
        }
        GridStep(frag, d, some);
        NoGridBetween(frag, d);
        d := d + frag;
      }
    }

    /** `alloc`: the first free block; `want` fragments of it are taken and the rest stay free. */
    method Alloc(want: nat) returns (ok: bool, d: nat)
      requires Valid() && 0 < want <= frag
      modifies this`nbfree, this`nffree, this`btot, this`b, free
      ensures Valid() && ok == (old(nbfree) != 0)
      ensures ok ==> OnGrid(frag, d) && d + frag <= ndblk && BlockFree(old(free[..]), d, frag)
      ensures ok ==> forall e :: 0 <= e < d && OnGrid(frag, e) ==> !BlockFree(old(free[..]), e, frag)
      ensures ok ==> forall i :: 0 <= i < free.Length ==> free[i] == (old(free[i]) && !(d <= i < d + want))
      ensures ok ==> nffree + frag * nbfree == old(nffree + frag * nbfree) - want
      ensures !ok ==> free[..] == old(free[..])
    {
      d := 0;
      if nbfree == 0 {
        return false, 0;
      }
      d := FindBlock();
      TakeBlock(d, want);
      assert frag * (old(nbfree) - 1) == frag * old(nbfree) - frag;
      ok := true;
    }

    /**
     * `alloc` again and again, until the group has no free block left. What has been handed out
     * was free, belongs to nobody else, and is all that is no longer free.
     */
    method AllocEach(wants: seq<nat>) returns (at: seq<nat>)
      requires Valid() && forall k :: 0 <= k < |wants| ==> 0 < wants[k] <= frag
      modifies this`nbfree, this`nffree, this`btot, this`b, free
      ensures Valid() && HandedOut(old(free[..]), free[..], wants, at)
      ensures nffree + frag * nbfree == old(nffree + frag * nbfree) - SumOf(wants[..|at|])
      ensures |at| < |wants| ==> nbfree == 0
    {
      at := [];
      assert wants[..0] == [];
      while |at| < |wants|
        invariant Valid() && HandedOut(old(free[..]), free[..], wants, at)
        invariant nffree + frag * nbfree == old(nffree + frag * nbfree) - SumOf(wants[..|at|])
        decreases |wants| - |at|
      {
        ghost var was := free[..];
        var ok, d := Alloc(wants[|at|]);
        if !ok {
          assert free[..] == was;
          return;
        }
        OneMorePiece(old(free[..]), was, free[..], wants, at, d);
        assert wants[..|at| + 1][..|at|] == wants[..|at|];
        at := at + [d];
      }
    }

    /** The label `goth`. */
    method TakeBlock(d: nat, want: nat)
      requires Valid() && 0 < want <= frag && OnGrid(frag, d) && d + frag <= ndblk && BlockFree(free[..], d, frag)
      modifies this`nbfree, this`nffree, this`btot, this`b, free
      ensures Valid() && nbfree == old(nbfree) - 1 && nffree == old(nffree) + frag - want
      ensures forall i :: 0 <= i < free.Length ==> free[i] == (old(free[i]) && !(d <= i < d + want))
    {
      hide Blocks, Odd;
      ghost var x := free[..];
      PutBlock(d, false);
      CountBlock(d, -1);
      if want < frag {
        nffree := nffree + (frag - want);
        FreeRest(d, want);
      }
      Taken(x, free[..], frag, d, want, free.Length, g);
    }

    /** `for (i = frag; i < fs_frag; i++) setbit(cg_free, d + i);` */
    method FreeRest(d: nat, want: nat)
      requires want <= frag && d + frag <= free.Length
      modifies free
      ensures forall i :: 0 <= i < free.Length ==> free[i] == if d + want <= i < d + frag then true else old(free[i])
    {
      var i := want;
      while i < frag
        invariant want <= i <= frag
        invariant forall k :: 0 <= k < free.Length ==> free[k] == if d + want <= k < d + i then true else old(free[k])
      {
        free[d + i] := true;
        i := i + 1;
      }
    }

    // ----- building the counts from left to right

    /** The block at d is free, and counted. */
    method AddBlock(d: nat)
      requires Shape() && OnGrid(frag, d) && d + frag <= free.Length && CountsTo(d)
      modifies this`nbfree, this`btot, this`b, free
      ensures Shape() && CountsTo(d + frag)
      ensures |btot| == old(|btot|) && forall c :: 0 <= c < |b| ==> |b[c]| == old(|b[c]|)
      ensures forall i :: 0 <= i < free.Length ==> free[i] == (d <= i < d + frag || old(free[i]))
    {
      hide Blocks, Odd;
      ghost var x := free[..];
      PutBlock(d, true);
      CountBlock(d, 1);
      OneMore(x, free[..], frag, d, g);
    }

    /** The block at d is not free. */
    method SkipBlock(d: nat)
      requires Shape() && OnGrid(frag, d) && d + frag <= free.Length && CountsTo(d)
      modifies free
      ensures Shape() && CountsTo(d + frag)
      ensures forall i :: 0 <= i < free.Length ==> free[i] == (!(d <= i < d + frag) && old(free[i]))
    {
      hide Blocks, Odd;
      ghost var x := free[..];
      PutBlock(d, false);
      OneMore(x, free[..], frag, d, g);
      FreeInAll(free[..], d, d + frag, false);
    }

    /** The fragments from `from` to the end of the block, which ends at d, are free. */
    method FreeTail(from: nat, d: nat)
      requires Shape() && frag <= d <= free.Length && OnGrid(frag, d) && CountsTo(d) && d - frag < from <= d
      requires forall i :: d - frag <= i < d ==> !free[i]
      modifies this`nffree, free
      ensures Shape() && CountsTo(d)
      ensures forall i :: 0 <= i < free.Length ==> free[i] == (from <= i < d || old(free[i]))
    {
      ghost var x := free[..];
      var i := d;
      while i > from
        invariant from <= i <= d && nffree == old(nffree) + (d - i)
        invariant forall k :: 0 <= k < free.Length ==> free[k] == (i <= k < d || x[k])
      {
        i := i - 1;
        free[i] := true;
        nffree := nffree + 1;
      }
      hide Blocks, Odd;
      PartOfBlock(x, free[..], frag, d - frag, from, d, g);
    }

    /** The last fragments of the group do not fill the block at d; the rest of the block is not there. */
    method FreeHead(d: nat, n: nat)
      requires Shape() && OnGrid(frag, d) && d + frag <= free.Length && CountsTo(d) && d < n < d + frag
      modifies this`nffree, free
      ensures Shape() && CountsTo(d + frag)
      ensures forall i :: 0 <= i < free.Length ==> free[i] == if d <= i < d + frag then i < n else old(free[i])
    {
      ghost var x := free[..];
      var e := d;
      while e < n
        invariant d <= e <= n && nffree == old(nffree) + (e - d)
        invariant forall k :: 0 <= k < free.Length ==> free[k] == (d <= k < e || x[k])
      {
        free[e] := true;
        nffree := nffree + 1;
        e := e + 1;
      }
      ClearToGrid(d, n);
      hide Blocks, Odd;
      HeadOfBlock(x, free[..], frag, d, n, g);
    }

    /** `for (; d % fs_frag != 0; d++) clrbit(cg_free, d);` */
    method ClearToGrid(d: nat, n: nat)
      requires frag > 0 && OnGrid(frag, d) && d < n < d + frag <= free.Length
      modifies free
      ensures forall k :: 0 <= k < free.Length ==> free[k] == (!(n <= k < d + frag) && old(free[k]))
    {
      var e := n;
      while e % frag != 0
        invariant n <= e <= d + frag
        invariant forall k :: 0 <= k < free.Length ==> free[k] == (!(n <= k < e) && old(free[k]))
        decreases d + frag - e
      {
        GridMod(frag, d + frag);
        free[e] := false;
        e := e + 1;
      }
      GridModBack(frag, e);
      NoGridBetween(frag, d);
    }

    /** `initcg`: what is free, and all the counts; `dsize` is what the group adds to fs_dsize. */
    method Initcg(first: bool, dlower: nat, dupper: nat, n: nat, ghost top: nat) returns (dsize: int)
      requires Shape() && n <= free.Length && OnGrid(frag, dlower) && dlower <= dupper
      requires OnGrid(frag, top) && dupper <= top < dupper + frag && top <= n
      modifies this, free
      ensures Valid() && ndblk == n
      ensures forall i :: 0 <= i < free.Length ==> free[i] == (i < n && (dupper <= i || (!first && i < dlower)))
      ensures dsize == nffree + frag * nbfree
    {
      hide Blocks, Odd, FreeIn, OnGrid;
      assert OnGrid(frag, 0) by {
        GridModBack(frag, 0);
      }
      dsize := 0;
      ndblk := n;
      ClearCounts();
      var d := 0;
      while d < dlower
        invariant Shape() && OnGrid(frag, d) && d <= dlower && CountsTo(d)
        invariant dsize == 0 && ndblk == n && forall i :: 0 <= i < d ==> free[i] == !first
      {
        GridStep(frag, d, dlower);
        if first {
          SkipBlock(d);
        } else {
          AddBlock(d);
        }
        GridAfter(frag, d);
        d := d + frag;
      }
      if !first {
        dsize := dsize + dlower;
      }
      dsize := dsize + (n - dupper);
      d := Middle(first, dlower, dupper, top);
      Rest(first, dlower, dupper, n, d);
      AllFragments(free[..], frag, free.Length, g);
      CountFree(free[..], first, dlower, dupper, n);
    }

    method ClearCounts()
      requires Shape()
      modifies this`nbfree, this`nffree, this`btot, this`b
      ensures Shape() && CountsTo(0)
    {
      nbfree, nffree := 0, 0;
      btot := seq(|btot|, c => 0);
      var was := b;
      b := seq(|was|, c requires 0 <= c < |was| => seq(|was[c]|, r => 0));
      assert forall c :: 0 <= c < |b| ==> |b[c]| == |was[c]|;
    }

    /** Nothing is free from dlower to dupper; the rest of the block in which dupper lies is. */
    method Middle(first: bool, dlower: nat, dupper: nat, ghost top: nat) returns (d: nat)
      requires Shape() && OnGrid(frag, dlower) && dlower <= dupper
      requires OnGrid(frag, top) && dupper <= top < dupper + frag && top <= free.Length && CountsTo(dlower)
      requires forall i :: 0 <= i < dlower ==> free[i] == !first
      modifies this`nffree, free
      ensures Shape() && d == top && CountsTo(d)
      ensures forall i :: 0 <= i < d ==> free[i] == (dupper <= i || (!first && i < dlower))
    {
      d := dlower;
      while d < dupper
        invariant Shape() && OnGrid(frag, d) && dlower <= d <= top && CountsTo(d)
        invariant forall i :: 0 <= i < d ==> free[i] == (i < dlower && !first)
        invariant d > dlower ==> d - frag < dupper && d >= frag + dlower
      {
        GridStep(frag, d, top);
        SkipBlock(d);
        d := d + frag;
      }
      if d < top {
        GridStep(frag, d, top);
      }
      if d > dupper {
        FreeTail(dupper, d);
      }
    }

    /** Whole blocks from d0 on, as far as they go. */
    method AddBlocks(d0: nat, n: nat) returns (d: nat)
      requires Shape() && OnGrid(frag, d0) && d0 <= n <= free.Length && CountsTo(d0)
      modifies this`nbfree, this`btot, this`b, free
      ensures Shape() && OnGrid(frag, d) && d0 <= d <= n < d + frag && CountsTo(d)
      ensures forall i :: 0 <= i < d ==> free[i] == (d0 <= i || old(free[i]))
    {
      d := d0;
      while d + frag <= n
        invariant Shape() && OnGrid(frag, d) && d0 <= d <= n && CountsTo(d)
        invariant forall i :: 0 <= i < d ==> free[i] == (d0 <= i || old(free[i]))
      {
        AddBlock(d);
        d := d + frag;
      }
    }

    /** Whole blocks up to the end of the group, the fragments after them, and nothing beyond. */
    method Rest(first: bool, dlower: nat, dupper: nat, n: nat, d0: nat)
      requires Shape() && OnGrid(frag, d0) && dlower <= dupper <= d0 <= n <= free.Length && ndblk == n && CountsTo(d0)
      requires forall i :: 0 <= i < d0 ==> free[i] == (dupper <= i || (!first && i < dlower))
      modifies this`nbfree, this`nffree, this`btot, this`b, free
      ensures Valid()
      ensures forall i :: 0 <= i < free.Length ==> free[i] == (i < n && (dupper <= i || (!first && i < dlower)))
    {
      var d := AddBlocks(d0, n);
      if d < n {
        GridStep(frag, d, free.Length);
        FreeHead(d, n);
        d := d + frag;
      }
      Beyond(d);
    }

    /** `for (d /= fs_frag; d < MAXBPG; d++) clrblock(...);` */
    method Beyond(d0: nat)
      requires Shape() && OnGrid(frag, d0) && d0 <= free.Length && CountsTo(d0)
      modifies free
      ensures Shape() && CountsTo(free.Length)
      ensures forall i :: 0 <= i < free.Length ==> free[i] == (i < d0 && old(free[i]))
    {
      var d := d0;
      while d < free.Length
        invariant Shape() && OnGrid(frag, d) && d0 <= d <= free.Length && CountsTo(d)
        invariant forall i :: 0 <= i < d ==> free[i] == (i < d0 && old(free[i]))
      {
        GridStep(frag, d, free.Length);
        SkipBlock(d);
        d := d + frag;
      }
    }

    // ----- icheck

    /** The part of the loop of `makecg` for one block, of which `bmap` says what is in use; j is what is free. */
    method CopyBlock(bmap: seq<bool>, d: nat, upto: nat, ghost x: seq<bool>) returns (j: nat)
      requires d <= upto <= free.Length && upto <= |bmap| && |x| == free.Length
      requires forall i :: 0 <= i < d ==> free[i] == x[i]
      modifies free
      ensures forall i :: 0 <= i < d ==> free[i] == x[i]
      ensures forall i :: d <= i < upto ==> free[i] == !bmap[i]
      ensures j == FreeIn(free[..], d, upto)
    {
      j := 0;
      var i := d;
      while i < upto
        invariant d <= i <= upto && j == FreeIn(free[..], d, i)
        invariant forall k :: 0 <= k < d ==> free[k] == x[k]
        invariant forall k :: d <= k < i ==> free[k] == !bmap[k]
      {
        ghost var y := free[..];
        free[i] := !bmap[i];
        FreeInSame(y, free[..], d, i);
        if !bmap[i] {
          j := j + 1;
        }
        i := i + 1;
      }
    }

    /** One block of `makecg`, with its counts. */
    method RebuildBlock(bmap: seq<bool>, d: nat)
      requires Shape() && OnGrid(frag, d) && d + frag <= free.Length && d + frag <= |bmap| && CountsTo(d)
      modifies this`nbfree, this`nffree, this`btot, this`b, free
      ensures Shape() && CountsTo(d + frag)
      ensures forall i :: 0 <= i < d ==> free[i] == old(free[i])
      ensures forall i :: d <= i < d + frag ==> free[i] == !bmap[i]
    {
      ghost var x := free[..];
      var j := CopyBlock(bmap, d, d + frag, x);
      FullOrNot(free[..], d, d + frag);
      OneMore(x, free[..], frag, d, g);
      hide Blocks, Odd, FreeIn;
      if j == frag {
        CountBlock(d, 1);
      } else if j > 0 {
        nffree := nffree + j;
      }
    }

    /** The loop of `makecg` from dlower to dupper, whose work is done over again by the next. */
    method ClearRange(dlower: nat, dupper: nat)
      requires Shape() && dlower <= dupper <= free.Length && CountsTo(0)
      modifies free
      ensures Shape() && CountsTo(0)
    {
      var d := dlower;
      while d < dupper
        invariant dlower <= d <= dupper && Shape() && CountsTo(0)
      {
        free[d] := false;
        d := d + 1;
      }
    }

    /** `makecg`: the map of a group of n fragments, and its counts, from the map of what is in use. */
    method Makecg(bmap: seq<bool>, dlower: nat, dupper: nat, n: nat)
      requires Shape() && n <= free.Length && n <= |bmap| && dlower <= dupper <= free.Length
      modifies this, free
      ensures Valid() && ndblk == n
      ensures forall i :: 0 <= i < free.Length ==> free[i] == (i < n && !bmap[i])
    {
      hide Blocks, Odd, FreeIn;
      ndblk := n;
      ClearCounts();
      ClearRange(dlower, dupper);
      var d := 0;
      while d + frag <= n
        invariant Shape() && OnGrid(frag, d) && d <= n && CountsTo(d) && ndblk == n
        invariant forall i :: 0 <= i < d ==> free[i] == !bmap[i]
      {
        RebuildBlock(bmap, d);
        d := d + frag;
      }
      if d < n {
        GridStep(frag, d, free.Length);
        RebuildLast(bmap, d, n);
        d := d + frag;
      }
      Beyond(d);
    }

    /** The fragments that do not fill a block. */
    method RebuildLast(bmap: seq<bool>, d: nat, n: nat)
      requires Shape() && OnGrid(frag, d) && d < n < d + frag <= free.Length && n <= |bmap| && CountsTo(d)
      modifies this`nffree, free
      ensures Shape() && CountsTo(d + frag)
      ensures forall i :: 0 <= i < d ==> free[i] == old(free[i])
      ensures forall i :: d <= i < d + frag ==> free[i] == (i < n && !bmap[i])
    {
      ghost var x := free[..];
      var j := CopyBlock(bmap, d, n, x);
      nffree := nffree + j;
      ghost var y := free[..];
      ClearToGrid(d, n);
      FreeInSame(y, free[..], d, n);
      FreeInAll(free[..], n, d + frag, false);
      FreeInSplit(free[..], d, n, d + frag);
      assert !free[n] && !BlockFree(free[..], d, frag);
      OneMore(x, free[..], frag, d, g);
    }
  }

  /** As many free fragments as there are places: all are free. */
  lemma {:induction false} FullOrNot(x: seq<bool>, a: nat, b: nat)
    requires a <= b <= |x|
    ensures FreeIn(x, a, b) <= b - a
    ensures FreeIn(x, a, b) == b - a <==> forall i :: a <= i < b ==> x[i]
    decreases b
  {
    if a < b {
      FullOrNot(x, a, b - 1);
    }
  }

  lemma {:induction false} GridMod(frag: nat, d: nat)
    requires frag > 0 && OnGrid(frag, d)
    ensures d % frag == 0
  {
    if d > 0 {
      GridMod(frag, d - frag);
      ModLess(d, frag);
    }
  }

  lemma ModLess(d: nat, frag: nat)
    requires 0 < frag <= d
    ensures d % frag == (d - frag) % frag
  {
    ModShift(d - frag, frag, 1);
  }

  lemma {:induction false} GridModBack(frag: nat, d: nat)
    requires frag > 0 && d % frag == 0
    ensures OnGrid(frag, d)
  {
    if d >= frag {
      ModLess(d, frag);
      GridModBack(frag, d - frag);
    }
  }

  /** A block more. */
  lemma {:induction false} OneMore(x: seq<bool>, y: seq<bool>, frag: nat, d: nat, g: Geometry)
    requires frag > 0 && d + frag <= |x| == |y| && forall i :: 0 <= i < d ==> x[i] == y[i]
    ensures forall s ::
      Blocks(y, frag, d + frag, g, s) == Blocks(x, frag, d, g, s) + One(BlockFree(y, d, frag) && Selected(g, s, d))
    ensures Odd(y, frag, d + frag) == Odd(x, frag, d) + OddIn(y, d, frag)
  {
    forall s
      ensures
        Blocks(y, frag, d + frag, g, s) == Blocks(x, frag, d, g, s) + One(BlockFree(y, d, frag) && Selected(g, s, d))
    {
      BlocksSame(x, y, frag, d, g, s);
    }
    BlocksSame(x, y, frag, d, g, All);
  }

  /** Some fragments of a block that had none become free. */
  lemma {:induction false} PartOfBlock(x: seq<bool>, y: seq<bool>, frag: nat, d: nat, from: nat, to: nat, g: Geometry)
    requires frag > 0 && OnGrid(frag, d) && to <= |x| == |y| && d < from <= to == d + frag
    requires forall i :: d <= i < d + frag ==> !x[i]
    requires forall i :: 0 <= i < |x| ==> y[i] == (from <= i < to || x[i])
    ensures forall s :: Blocks(y, frag, to, g, s) == Blocks(x, frag, to, g, s)
    ensures Odd(y, frag, to) == Odd(x, frag, to) + (to - from)
  {
    OneMore(x, y, frag, d, g);
    OneMore(x, x, frag, d, g);
    assert !x[d] && !y[d];
    FreeInAll(x, d, d + frag, false);
    FreeInAll(y, d, from, false);
    FreeInAll(y, from, to, true);
    FreeInSplit(y, d, from, to);
  }

  lemma {:induction false} HeadOfBlock(x: seq<bool>, y: seq<bool>, frag: nat, d: nat, n: nat, g: Geometry)
    requires frag > 0 && OnGrid(frag, d) && d + frag <= |x| == |y| && d < n < d + frag
    requires forall i :: 0 <= i < |x| ==> y[i] == if d <= i < d + frag then i < n else x[i]
    ensures forall s :: Blocks(y, frag, d + frag, g, s) == Blocks(x, frag, d, g, s)
    ensures Odd(y, frag, d + frag) == Odd(x, frag, d) + (n - d)
  {
    OneMore(x, y, frag, d, g);
    assert !y[n] && !BlockFree(y, d, frag);
    FreeInAll(y, d, n, true);
    FreeInAll(y, n, d + frag, false);
    FreeInSplit(y, d, n, d + frag);
  }

  lemma {:induction false} CountFree(bits: seq<bool>, first: bool, dlower: nat, dupper: nat, n: nat)
    requires dlower <= dupper <= n <= |bits|
    requires forall i :: 0 <= i < |bits| ==> bits[i] == (i < n && (dupper <= i || (!first && i < dlower)))
    ensures FreeIn(bits, 0, |bits|) == (if first then 0 else dlower) + (n - dupper)
  {
    FreeInAll(bits, 0, dlower, !first);
    FreeInAll(bits, dlower, dupper, false);
    FreeInAll(bits, dupper, n, true);
    FreeInAll(bits, n, |bits|, false);
    FreeInSplit(bits, 0, dlower, dupper);
    FreeInSplit(bits, 0, dupper, n);
    FreeInSplit(bits, 0, n, |bits|);
  }

  /** Between two neighbouring places of the grid there is none. */
  lemma {:induction false} NoGridBetween(frag: nat, d: nat)
    requires frag > 0 && OnGrid(frag, d)
    ensures forall e :: d < e < d + frag ==> !OnGrid(frag, e)
  {
    forall e | d < e < d + frag && OnGrid(frag, e)
      ensures false
    {
      GridStep(frag, d, e);
    }
  }

  /** What taking `want` fragments of a free block does to all the counts. */
  lemma {:induction false} Taken(x: seq<bool>, y: seq<bool>, frag: nat, d: nat, want: nat, n: nat, g: Geometry)
    requires frag > 0 && n <= |x| == |y| && OnGrid(frag, n) && OnGrid(frag, d) && d + frag <= n && 0 < want <= frag
    requires BlockFree(x, d, frag)
    requires forall i :: 0 <= i < |x| ==> y[i] == (x[i] && !(d <= i < d + want))
    ensures Odd(y, frag, n) == Odd(x, frag, n) + frag - want
    ensures forall s :: Blocks(y, frag, n, g, s) == Blocks(x, frag, n, g, s) - if Selected(g, s, d) then 1 else 0
  {
    assert !y[d] && !BlockFree(y, d, frag);
    FreeInAll(y, d, d + want, false);
    FreeInAll(y, d + want, d + frag, true);
    FreeInSplit(y, d, d + want, d + frag);
    forall s
      ensures Blocks(y, frag, n, g, s) == Blocks(x, frag, n, g, s) - if Selected(g, s, d) then 1 else 0
    {
      BlockChanged(x, y, frag, n, d, g, s);
    }
    BlockChanged(x, y, frag, n, d, g, All);
  }

  // ----- all groups

  /** Where the blocks of a group's own begin and end, and how many fragments it has. */
  datatype Bounds = Bounds(dlower: nat, dupper: nat, n: nat)

  /** The next place of the grid. */
  ghost predicate Fits(frag: nat, length: nat, x: Bounds, top: nat)
    requires frag > 0
  {
    && x.n <= length && OnGrid(frag, x.dlower) && x.dlower <= x.dupper
    && OnGrid(frag, top) && x.dupper <= top < x.dupper + frag && top <= x.n
  }

  /**
   * The loop of `main` over the groups, which are made in one place and written out one after
   * the other: the size of the file system is what its maps have free, in blocks and in
   * fragments.
   */
  method InitAll(cg: Group, bounds: seq<Bounds>, ghost tops: seq<nat>)
    returns (dsize: int, nbfree: int, nffree: int, maps: seq<seq<bool>>)
    requires cg.Shape() && |tops| == |bounds|
    requires forall k :: 0 <= k < |bounds| ==> Fits(cg.frag, cg.free.Length, bounds[k], tops[k])
    modifies cg, cg.free
    ensures dsize == nffree + cg.frag * nbfree && |maps| == |bounds|
    ensures forall k :: 0 <= k < |maps| ==> |maps[k]| == cg.free.Length
    ensures forall k, i :: 0 <= k < |maps| && 0 <= i < |maps[k]| ==>
      maps[k][i] == (i < bounds[k].n && (bounds[k].dupper <= i || (k > 0 && i < bounds[k].dlower)))
    ensures dsize == AllFree(maps)
  {
    hide FreeIn, Blocks, Odd;
    dsize, nbfree, nffree, maps := 0, 0, 0, [];
    var cylno := 0;
    while cylno < |bounds|
      invariant cylno == |maps| <= |bounds| && cg.Shape()
      invariant dsize == nffree + cg.frag * nbfree && dsize == AllFree(maps)
      invariant forall k :: 0 <= k < |maps| ==> |maps[k]| == cg.free.Length
      invariant forall k, i :: 0 <= k < |maps| && 0 <= i < |maps[k]| ==>
        maps[k][i] == (i < bounds[k].n && (bounds[k].dupper <= i || (k > 0 && i < bounds[k].dlower)))
    {
      var x := bounds[cylno];
      var size := cg.Initcg(cylno == 0, x.dlower, x.dupper, x.n, tops[cylno]);
      AllFragments(cg.free[..], cg.frag, cg.free.Length, cg.g);
      dsize := dsize + size;
      assert cg.frag * (nbfree + cg.nbfree) == cg.frag * nbfree + cg.frag * cg.nbfree;
      nbfree, nffree := nbfree + cg.nbfree, nffree + cg.nffree;
      assert (maps + [cg.free[..]])[..|maps|] == maps;
      maps := maps + [cg.free[..]];
      cylno := cylno + 1;
    }
  }

  ghost function AllFree(maps: seq<seq<bool>>): nat {
    if maps == [] then 0 else AllFree(maps[..|maps| - 1]) + FreeIn(maps[|maps| - 1], 0, |maps[|maps| - 1]|)
  }
}
