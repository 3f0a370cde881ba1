/**
 * `alloc` of etc/mkproto.c over all the cylinder groups of a file system: it goes on to the next
 * group when one has no free block left, and answers with an address in the whole file system.
 */
module FileSystem {
  import opened CylinderGroup

  /** The free maps of all groups one after the other, `fpg` fragments of each. */
  function Joined(maps: seq<seq<bool>>, fpg: nat): (bits: seq<bool>)
    requires forall k :: 0 <= k < |maps| ==> fpg <= |maps[k]|
    ensures |bits| == |maps| * fpg
  {
    if maps == [] then [] else Joined(maps[..|maps| - 1], fpg) + maps[|maps| - 1][..fpg]
  }

  /** A piece has gone from group c, and nothing else has changed. */
  ghost predicate PieceGone(maps: seq<seq<bool>>, now: seq<seq<bool>>, c: nat, d: nat, want: nat) {
    && |maps| == |now| && c < |maps| && |now[c]| == |maps[c]|
    && (forall k :: 0 <= k < |maps| && k != c ==> now[k] == maps[k])
    && forall i :: 0 <= i < |maps[c]| ==> now[c][i] == (maps[c][i] && !(d <= i < d + want))
  }

  lemma {:induction false} GroupEnds(c: nat, n: nat, fpg: nat)
    requires c < n
    ensures c * fpg + fpg <= n * fpg
  {
    assert (c + 1) * fpg <= n * fpg;
  }

  /** The piece has then gone at its address, and nowhere else. */
  lemma {:induction false} GoneAtAddress(maps: seq<seq<bool>>, now: seq<seq<bool>>, fpg: nat, c: nat, d: nat, want: nat)
    requires PieceGone(maps, now, c, d, want) && d + want <= fpg
    requires forall k :: 0 <= k < |maps| ==> fpg <= |maps[k]|
    ensures c * fpg + d + want <= |Joined(maps, fpg)|
    ensures forall x :: 0 <= x < |maps| * fpg ==>
      Joined(now, fpg)[x] == (Joined(maps, fpg)[x] && !(c * fpg + d <= x < c * fpg + d + want))
  {
    var n := |maps| - 1;
    GroupEnds(c, |maps|, fpg);
    assert forall k :: 0 <= k < |now| ==> |now[k]| == |maps[k]|;
    assert |maps| * fpg == n * fpg + fpg;
    if c == n {
      assert now[..n] == maps[..n];
    } else {
      assert PieceGone(maps[..n], now[..n], c, d, want);
      GroupEnds(c, n, fpg);
      GoneAtAddress(maps[..n], now[..n], fpg, c, d, want);
    }
  }

  /** What is free in a group is free at its address. */
  lemma {:induction false} FreeAtAddress(maps: seq<seq<bool>>, fpg: nat, c: nat, i: nat)
    requires c < |maps| && i < fpg && forall k :: 0 <= k < |maps| ==> fpg <= |maps[k]|
    ensures c * fpg + i < |Joined(maps, fpg)| && Joined(maps, fpg)[c * fpg + i] == maps[c][i]
  {
    var n := |maps| - 1;
    GroupEnds(c, |maps|, fpg);
    if c < n {
      GroupEnds(c, n, fpg);
      FreeAtAddress(maps[..n], fpg, c, i);
    }
  }

  /** `acg.cg_cgx * fs->fs_fpg + d` */
  function Address(c: nat, fpg: nat, d: nat): nat {
    c * fpg + d
  }

  /** The piece at the address was free, and is all that is no longer free. */
  ghost predicate Gone(was: seq<bool>, now: seq<bool>, address: nat, want: nat) {
    && address + want <= |was| == |now|
    && (forall x :: address <= x < address + want ==> was[x])
    && forall x :: 0 <= x < |was| ==> now[x] == (was[x] && !(address <= x < address + want))
  }

  lemma {:induction false} GoneInAll(maps: seq<seq<bool>>, now: seq<seq<bool>>, fpg: nat, c: nat, d: nat, want: nat)
    requires PieceGone(maps, now, c, d, want) && d + want <= fpg
    requires forall k :: 0 <= k < |maps| ==> fpg <= |maps[k]|
    requires forall k :: 0 <= k < |now| ==> fpg <= |now[k]|
    requires forall i :: d <= i < d + want ==> maps[c][i]
    ensures Gone(Joined(maps, fpg), Joined(now, fpg), Address(c, fpg, d), want)
  {
    hide Joined;
    GoneAtAddress(maps, now, fpg, c, d, want);
    forall x | Address(c, fpg, d) <= x < Address(c, fpg, d) + want
      ensures Joined(maps, fpg)[x]
    {
      FreeAtAddress(maps, fpg, c, x - c * fpg);
    }
  }

  lemma {:induction false} OnePieceGone(was: seq<bool>, mid: seq<bool>, now: seq<bool>, wants: seq<nat>, at: seq<nat>,
    address: nat)
    requires HandedOut(was, mid, wants, at) && |at| < |wants| && Gone(mid, now, address, wants[|at|])
    ensures HandedOut(was, now, wants, at + [address])
  {
    hide HandedOut;
    OneMorePiece(was, mid, now, wants, at, address);
  }

  lemma {:induction false} NothingHandedOut(bits: seq<bool>, wants: seq<nat>)
    ensures HandedOut(bits, bits, wants, []) && SumOf(wants[..0]) == 0
  {
  }

  lemma {:induction false} OneMoreWant(wants: seq<nat>, n: nat)
    requires n < |wants|
    ensures SumOf(wants[..n + 1]) == SumOf(wants[..n]) + wants[n]
  {
    assert wants[..n + 1][..n] == wants[..n];
  }

  /** The free fragments become fewer by those of the piece. */
  lemma {:induction false} FewerFree(maps: seq<seq<bool>>, now: seq<seq<bool>>, c: nat, d: nat, want: nat)
    requires PieceGone(maps, now, c, d, want)
    requires FreeIn(now[c], 0, |now[c]|) == FreeIn(maps[c], 0, |maps[c]|) - want
    ensures AllFree(now) == AllFree(maps) - want
  {
    var n := |maps| - 1;
    if c == n {
      assert now[..n] == maps[..n];
    } else {
      assert PieceGone(maps[..n], now[..n], c, d, want);
      FewerFree(maps[..n], now[..n], c, d, want);
    }
  }

  ghost function MapsOf(groups: seq<Group>): (maps: seq<seq<bool>>)
    reads set k | 0 <= k < |groups| :: groups[k].free
    ensures |maps| == |groups| && forall k :: 0 <= k < |maps| ==> maps[k] == groups[k].free[..]
  {
    if groups == [] then []
    else
      var n := |groups| - 1;
      assert forall k :: 0 <= k < n ==> groups[..n][k].free == groups[k].free;
      MapsOf(groups[..n]) + [groups[n].free[..]]
  }

  class FileSystem {
    const groups: seq<Group>
    const frag: nat
    const fpg: nat
    var cg: nat                 // the static variable of `alloc`

    /** The maps hold a flag for every fragment of their groups. */
    ghost predicate Fits() {
      forall k :: 0 <= k < |groups| ==> fpg <= groups[k].free.Length
    }

    /** The groups before `cg` have no block left. */
    ghost predicate Valid()
      reads this, groups, set k | 0 <= k < |groups| :: groups[k].free
    {
      && cg <= |groups|
      && (forall k :: 0 <= k < |groups| ==> groups[k].Valid() && groups[k].frag == frag)
      && Fits() && (forall k :: 0 <= k < |groups| ==> groups[k].ndblk <= fpg)
      && (forall j, k :: 0 <= j < k < |groups| ==> groups[j] != groups[k] && groups[j].free != groups[k].free)
      && forall k :: 0 <= k < cg ==> groups[k].nbfree == 0
    }

    ghost function Maps(): (maps: seq<seq<bool>>)
      reads set k | 0 <= k < |groups| :: groups[k].free
      ensures |maps| == |groups| && forall k :: 0 <= k < |maps| ==> maps[k] == groups[k].free[..]
    {
      MapsOf(groups)
    }

    /** What is free in the whole file system. */
    ghost function Free(): seq<bool>
      reads set k | 0 <= k < |groups| :: groups[k].free
      requires Fits()
    {
      Joined(Maps(), fpg)
    }

    /** No group counts a free block. */
    ghost predicate OutOfSpace()
      reads groups
    {
      forall k :: 0 <= k < |groups| ==> groups[k].nbfree == 0
    }

    constructor (all: seq<Group>, perBlock: nat, perGroup: nat)
      requires forall k :: 0 <= k < |all| ==>
        all[k].Valid() && all[k].frag == perBlock && all[k].ndblk <= perGroup <= all[k].free.Length
      requires forall j, k :: 0 <= j < k < |all| ==> all[j] != all[k] && all[j].free != all[k].free
      ensures Valid() && groups == all && frag == perBlock && fpg == perGroup
    {
      groups, frag, fpg, cg := all, perBlock, perGroup, 0;
    }

    lemma ValidFits()
      requires Valid()
      ensures Fits()
    {
    }

    /** `cg` goes on to the first group that counts a free block, if there is one. */
    method FindGroup()
      requires Valid()
      modifies this`cg
      ensures Valid() && (cg == |groups| <==> OutOfSpace()) && (cg < |groups| ==> groups[cg].nbfree != 0)
    {
      hide Group.Valid;
      while cg < |groups| && groups[cg].nbfree == 0
        invariant Valid()
        decreases |groups| - cg
      {
        cg := cg + 1;
      }
    }

    /** A piece of the first free block of group `cg`. */
    method TakeFrom(want: nat) returns (d: nat)
      requires Valid() && cg < |groups| && groups[cg].nbfree != 0 && 0 < want <= frag
      modifies groups[cg], groups[cg].free
      ensures Valid() && PieceGone(old(Maps()), Maps(), cg, d, want) && d + want <= fpg
      ensures forall i :: d <= i < d + want ==> old(Maps())[cg][i]
      ensures var was := old(Maps())[cg];
        FreeIn(Maps()[cg], 0, |was|) == FreeIn(was, 0, |was|) - want
    {
      hide Group.CountsTo, Group.Shape, FreeIn, AllFree;
      var it := groups[cg];
      Counted(it);
      var ok;
      ok, d := it.Alloc(want);
      Counted(it);
    }

    lemma Counted(it: Group)
      requires it.Valid()
      ensures FreeIn(it.free[..], 0, it.free.Length) == it.nffree + it.frag * it.nbfree
    {
      AllFragments(it.free[..], it.frag, it.free.Length, it.g);
    }

    /** `alloc`: a piece of the first block that is free in the first group that counts one. */
    method Alloc(want: nat) returns (ok: bool, address: nat)
      requires Valid() && 0 < want <= frag
      modifies this`cg, groups, set k | 0 <= k < |groups| :: groups[k].free
      ensures Valid() && ok == !old(OutOfSpace())
      ensures !ok ==> Maps() == old(Maps()) && Free() == old(Free()) && OutOfSpace()
      ensures ok ==> Gone(old(Free()), Free(), address, want)
      ensures AllFree(Maps()) == old(AllFree(Maps())) - if ok then want else 0
    {
      hide AllFree, FreeIn, Joined, Group.Valid, Gone, PieceGone, Address;
      ghost var maps := Maps();
      FindGroup();
      if cg == |groups| {
        return false, 0;
      }
      var d := TakeFrom(want);
      FewerFree(maps, Maps(), cg, d, want);
      GoneInAll(maps, Maps(), fpg, cg, d, want);
      return true, Address(cg, fpg, d);
    }

    /**
     * `alloc` again and again: no two pieces share a fragment anywhere in the file system, what
     * has been handed out was free and is all that is no longer free, and there is an end only
     * when no group has a block left.
     */
    method AllocEach(wants: seq<nat>) returns (at: seq<nat>)
      requires Valid() && forall k :: 0 <= k < |wants| ==> 0 < wants[k] <= frag
      modifies this`cg, groups, set k | 0 <= k < |groups| :: groups[k].free
      ensures Valid() && HandedOut(old(Free()), Free(), wants, at)
      ensures AllFree(Maps()) == old(AllFree(Maps())) - SumOf(wants[..|at|])
      ensures |at| < |wants| ==> OutOfSpace()
    {
      hide Valid, Fits, Maps, Free, AllFree, HandedOut, Gone, OutOfSpace, SumOf;
      at := [];
      ValidFits();
      NothingHandedOut(Free(), wants);
      while |at| < |wants|
        invariant Valid() && |at| <= |wants| && HandedOut(old(Free()), Free(), wants, at)
        invariant AllFree(Maps()) == old(AllFree(Maps())) - SumOf(wants[..|at|])
        decreases |wants| - |at|
      {
        ghost var was := Free();
        var ok, address := Alloc(wants[|at|]);
        if !ok {
          return;
        }
        OnePieceGone(old(Free()), was, Free(), wants, at, address);
        OneMoreWant(wants, |at|);
        at := at + [address];
      }
    }
  }
}
