/**
 * The swap resource map of etc/pstat.c: an array of free extents with increasing
 * addresses, ended by an entry of size 0, from which `rmalloc` takes space first-fit
 * and to which `rmfree` returns it, merging neighbours.
 */
module ResourceMap {
  import opened Numbers

  datatype Extent = Extent(addr: int, size: int)
  {
    function End(): int { addr + size }
  }

  datatype Option<T> = None | Some(value: T)

  const NONE := Extent(0, 0)

  // ----- sequences of extents

  /** Positive, increasing, and never touching: the list is fully coalesced. */
  ghost predicate Coalesced(e: seq<Extent>) {
    && (forall i :: 0 <= i < |e| ==> e[i].addr > 0 && e[i].size > 0)
    && (forall i, j :: 0 <= i < j < |e| ==> e[i].End() < e[j].addr)
  }

  predicate Holds(x: Extent, a: int) {
    x.addr <= a < x.End()
  }

  ghost predicate IsFree(e: seq<Extent>, a: int) {
    exists i :: 0 <= i < |e| && Holds(e[i], a)
  }

  function Total(e: seq<Extent>): int {
    if e == [] then 0 else Total(e[..|e| - 1]) + e[|e| - 1].size
  }

  lemma {:induction false} TotalConcat(a: seq<Extent>, b: seq<Extent>)
    ensures Total(a + b) == Total(a) + Total(b)
  {
    if b == [] {
      assert a + b == a;
    } else {
      assert (a + b)[..|a + b| - 1] == a + b[..|b| - 1];
      TotalConcat(a, b[..|b| - 1]);
    }
  }

  lemma {:induction false} TotalOne(x: Extent)
    ensures Total([x]) == x.size
  {
    assert [x][..0] == [];
  }

  /** The n units from `a` on. */
  ghost function Interval(a: int, n: nat): (s: set<int>)
    ensures forall x :: x in s <==> a <= x < a + n
    ensures |s| == n
  {
    if n == 0 then {} else Interval(a, n - 1) + {a + n - 1}
  }

  ghost function FreeSet(e: seq<Extent>): set<int>
    requires forall i :: 0 <= i < |e| ==> e[i].size > 0
  {
    if e == [] then {} else FreeSet(e[..|e| - 1]) + Interval(e[|e| - 1].addr, e[|e| - 1].size)
  }

  lemma {:induction false} FreeConcat(a: seq<Extent>, b: seq<Extent>, u: int)
    ensures IsFree(a + b, u) <==> IsFree(a, u) || IsFree(b, u)
  {
    if IsFree(a, u) {
      var i :| 0 <= i < |a| && Holds(a[i], u);
      assert Holds((a + b)[i], u);
    }
    if IsFree(b, u) {
      var i :| 0 <= i < |b| && Holds(b[i], u);
      assert Holds((a + b)[|a| + i], u);
    }
    if IsFree(a + b, u) {
      var i :| 0 <= i < |a + b| && Holds((a + b)[i], u);
      if i < |a| {
        assert Holds(a[i], u);
      } else {
        assert Holds(b[i - |a|], u);
      }
    }
  }

  lemma {:induction false} FreeOne(x: Extent, u: int)
    ensures IsFree([x], u) <==> Holds(x, u)
    ensures !IsFree([], u)
  {
    if Holds(x, u) {
      assert Holds([x][0], u);
    }
  }

  lemma {:induction false} CoalescedConcat(a: seq<Extent>, b: seq<Extent>)
    requires Coalesced(a) && Coalesced(b)
    requires a != [] && b != [] ==> a[|a| - 1].End() < b[0].addr
    ensures Coalesced(a + b)
  {
    forall i, j | 0 <= i < j < |a + b|
      ensures (a + b)[i].End() < (a + b)[j].addr
    {
      if i < |a| <= j {
        assert i < |a| - 1 ==> a[i].End() < a[|a| - 1].addr;
        assert j > |a| ==> b[0].End() < b[j - |a|].addr;
      }
    }
  }

  lemma {:induction false} CoalescedSlice(e: seq<Extent>, i: nat, j: nat)
    requires Coalesced(e) && i <= j <= |e|
    ensures Coalesced(e[i..j])
  {
  }

  /** A unit lies in at most one extent. */
  lemma {:induction false} OneHolder(e: seq<Extent>, i: nat, j: nat, u: int)
    requires Coalesced(e) && i < |e| && j < |e| && i != j && Holds(e[i], u)
    ensures !Holds(e[j], u)
  {
    var low, high := if i < j then i else j, if i < j then j else i;
    assert e[low].End() < e[high].addr;
  }

  lemma {:induction false} FreeBelowLast(e: seq<Extent>, u: int)
    requires Coalesced(e) && e != []
    ensures IsFree(e, u) <==> IsFree(e[..|e| - 1], u) || Holds(e[|e| - 1], u)
    ensures !(IsFree(e[..|e| - 1], u) && Holds(e[|e| - 1], u))
  {
    var front, last := e[..|e| - 1], e[|e| - 1];
    assert e == front + [last];
    FreeConcat(front, [last], u);
    FreeOne(last, u);
    if IsFree(front, u) {
      var i :| 0 <= i < |front| && Holds(front[i], u);
      OneHolder(e, i, |e| - 1, u);
    }
  }

  lemma SizesPositive(e: seq<Extent>)
    requires Coalesced(e)
    ensures forall i :: 0 <= i < |e| ==> e[i].size > 0
  {
  }

  lemma NothingFree()
    ensures forall u :: !IsFree([], u)
  {
  }

  /** The total of the sizes is the number of free units. */
  lemma {:induction false} TotalCountsFree(e: seq<Extent>)
    requires Coalesced(e)
    ensures forall u :: u in FreeSet(e) <==> IsFree(e, u)
    ensures |FreeSet(e)| == Total(e)
  {
    hide Coalesced, IsFree;
    if e == [] {
      NothingFree();
    } else {
      var front, last := e[..|e| - 1], e[|e| - 1];
      SizesPositive(e);
      CoalescedSlice(e, 0, |e| - 1);
      TotalCountsFree(front);
      var units := Interval(last.addr, last.size);
      forall u
        ensures u in FreeSet(e) <==> IsFree(e, u)
        ensures !(u in FreeSet(front) && u in units)
      {
        FreeBelowLast(e, u);
      }
      assert FreeSet(front) !! units;
    }
  }

  // ----- returning space

  /** `p` separates the extents that start at or below `addr` from those above. */
  ghost predicate Splits(e: seq<Extent>, p: nat, addr: int) {
    && p <= |e|
    && (forall i :: 0 <= i < p ==> e[i].addr <= addr)
    && (p < |e| ==> e[p].addr > addr)
  }

  predicate AbutsLeft(e: seq<Extent>, p: nat, addr: int)
    requires p <= |e|
  {
    p > 0 && e[p - 1].End() == addr
  }

  predicate AbutsRight(e: seq<Extent>, p: nat, end: int)
    requires p <= |e|
  {
    p < |e| && e[p].addr == end
  }

  ghost predicate Overlaps(e: seq<Extent>, x: Extent) {
    exists a :: Holds(x, a) && IsFree(e, a)
  }

  /** Overlap with any extent is overlap with one of the two neighbours. */
  lemma {:induction false} OverlapIsLocal(e: seq<Extent>, p: nat, x: Extent)
    requires Coalesced(e) && Splits(e, p, x.addr) && x.size > 0
    ensures Overlaps(e, x) <==> (p > 0 && e[p - 1].End() > x.addr) || (p < |e| && x.End() > e[p].addr)
  {
    if p > 0 && e[p - 1].End() > x.addr {
      assert Holds(e[p - 1], x.addr) && Holds(x, x.addr);
      assert IsFree(e, x.addr);
    } else if p < |e| && x.End() > e[p].addr {
      assert Holds(e[p], e[p].addr) && Holds(x, e[p].addr);
      assert IsFree(e, e[p].addr);
    }
  }

  // Putting `x` back at position p replaces what lies between a left and a right part.

  function LowSplit(e: seq<Extent>, p: nat, x: Extent): (low: nat)
    requires p <= |e|
    ensures low <= p
  {
    if AbutsLeft(e, p, x.addr) then p - 1 else p
  }

  function HighSplit(e: seq<Extent>, p: nat, x: Extent): (high: nat)
    requires p <= |e|
    ensures p <= high <= |e|
  {
    if AbutsRight(e, p, x.End()) then p + 1 else p
  }

  function Middle(e: seq<Extent>, p: nat, x: Extent): Extent
    requires p <= |e|
  {
    var addr := if AbutsLeft(e, p, x.addr) then e[p - 1].addr else x.addr;
    var end := if AbutsRight(e, p, x.End()) then e[p].End() else x.End();
    Extent(addr, end - addr)
  }

  /** The list after `x` has been put back at position p. */
  function Returned(e: seq<Extent>, p: nat, x: Extent): seq<Extent>
    requires p <= |e|
  {
    e[..LowSplit(e, p, x)] + [Middle(e, p, x)] + e[HighSplit(e, p, x)..]
  }

  lemma {:induction false} Inserted(e: seq<Extent>, p: nat, x: Extent)
    requires p <= |e| && !AbutsLeft(e, p, x.addr) && !AbutsRight(e, p, x.End())
    ensures Returned(e, p, x) == e[..p] + [x] + e[p..]
  {
  }

  lemma {:induction false} MergedLeft(e: seq<Extent>, p: nat, x: Extent)
    requires p <= |e| && AbutsLeft(e, p, x.addr) && !AbutsRight(e, p, x.End())
    ensures Returned(e, p, x) == e[p - 1 := Middle(e, p, x)]
  {
  }

  lemma {:induction false} MergedBoth(e: seq<Extent>, p: nat, x: Extent)
    requires p < |e| && AbutsLeft(e, p, x.addr) && AbutsRight(e, p, x.End())
    ensures Returned(e, p, x) == Without(e[p - 1 := Middle(e, p, x)], p)
  {
  }

  lemma {:induction false} ReturnedReplaces(e: seq<Extent>, p: nat, x: Extent)
    requires p <= |e|
    ensures e == e[..LowSplit(e, p, x)] + e[LowSplit(e, p, x)..HighSplit(e, p, x)] + e[HighSplit(e, p, x)..]
    ensures e[LowSplit(e, p, x)..HighSplit(e, p, x)] ==
      (if AbutsLeft(e, p, x.addr) then [e[p - 1]] else []) + (if AbutsRight(e, p, x.End()) then [e[p]] else [])
  {
  }

  lemma {:induction false} MiddleFits(e: seq<Extent>, p: nat, x: Extent)
    requires Coalesced(e) && Splits(e, p, x.addr) && x.addr > 0 && x.size > 0 && !Overlaps(e, x)
    ensures Coalesced([Middle(e, p, x)])
    ensures LowSplit(e, p, x) > 0 ==> e[LowSplit(e, p, x) - 1].End() < Middle(e, p, x).addr
    ensures HighSplit(e, p, x) < |e| ==> Middle(e, p, x).End() < e[HighSplit(e, p, x)].addr
  {
    OverlapIsLocal(e, p, x);
  }

  /** Three coalesced pieces with gaps between them. */
  lemma {:induction false} Join(a: seq<Extent>, m: Extent, b: seq<Extent>)
    requires Coalesced(a) && Coalesced([m]) && Coalesced(b)
    requires a != [] ==> a[|a| - 1].End() < m.addr
    requires b != [] ==> m.End() < b[0].addr
    ensures Coalesced(a + [m] + b)
  {
    CoalescedConcat(a, [m]);
    CoalescedConcat(a + [m], b);
  }

  lemma {:induction false} ReturnedIsCoalesced(e: seq<Extent>, p: nat, x: Extent)
    requires Coalesced(e) && Splits(e, p, x.addr) && x.addr > 0 && x.size > 0 && !Overlaps(e, x)
    ensures Coalesced(Returned(e, p, x))
  {
    MiddleFits(e, p, x);
    var low, high := LowSplit(e, p, x), HighSplit(e, p, x);
    CoalescedSlice(e, 0, low);
    CoalescedSlice(e, high, |e|);
    Join(e[..low], Middle(e, p, x), e[high..]);
  }

  /** Exactly the returned range becomes free. */
  lemma {:induction false} ReturnedFrees(e: seq<Extent>, p: nat, x: Extent, a: int)
    requires Coalesced(e) && p <= |e| && x.size > 0
    ensures IsFree(Returned(e, p, x), a) <==> IsFree(e, a) || Holds(x, a)
  {
    ReturnedReplaces(e, p, x);
    var low, high, m := LowSplit(e, p, x), HighSplit(e, p, x), Middle(e, p, x);
    FreeConcat(e[..low] + [m], e[high..], a);
    FreeConcat(e[..low], [m], a);
    FreeOne(m, a);
    FreeConcat(e[..low] + e[low..high], e[high..], a);
    FreeConcat(e[..low], e[low..high], a);
    var left := if AbutsLeft(e, p, x.addr) then [e[p - 1]] else [];
    var right := if AbutsRight(e, p, x.End()) then [e[p]] else [];
    FreeConcat(left, right, a);
    FreeOne(x, a);
    if p > 0 {
      FreeOne(e[p - 1], a);
    }
    if p < |e| {
      FreeOne(e[p], a);
    }
  }

  lemma {:induction false} TotalThree(a: seq<Extent>, m: seq<Extent>, b: seq<Extent>)
    ensures Total(a + m + b) == Total(a) + Total(m) + Total(b)
  {
    TotalConcat(a + m, b);
    TotalConcat(a, m);
  }

  lemma {:induction false} MiddleTotal(e: seq<Extent>, p: nat, x: Extent)
    requires p <= |e|
    ensures Middle(e, p, x).size == Total(e[LowSplit(e, p, x)..HighSplit(e, p, x)]) + x.size
  {
    ReturnedReplaces(e, p, x);
    if AbutsLeft(e, p, x.addr) {
      TotalOne(e[p - 1]);
    }
    if AbutsRight(e, p, x.End()) {
      TotalOne(e[p]);
    }
    var left := if AbutsLeft(e, p, x.addr) then [e[p - 1]] else [];
    var right := if AbutsRight(e, p, x.End()) then [e[p]] else [];
    TotalConcat(left, right);
  }

  lemma {:induction false} ReturnedTotal(e: seq<Extent>, p: nat, x: Extent)
    requires p <= |e|
    ensures Total(Returned(e, p, x)) == Total(e) + x.size
  {
    var a, b := e[..LowSplit(e, p, x)], e[HighSplit(e, p, x)..];
    var replaced := e[LowSplit(e, p, x)..HighSplit(e, p, x)];
    ReturnedReplaces(e, p, x);
    MiddleTotal(e, p, x);
    TotalThree(a, [Middle(e, p, x)], b);
    TotalOne(Middle(e, p, x));
    TotalThree(a, replaced, b);
  }

  function Without(e: seq<Extent>, p: nat): seq<Extent>
    requires p < |e|
  {
    e[..p] + e[p + 1..]
  }

  lemma {:induction false} WithoutIsCoalesced(e: seq<Extent>, p: nat)
    requires Coalesced(e) && p < |e|
    ensures Coalesced(Without(e, p))
  {
    CoalescedSlice(e, 0, p);
    CoalescedSlice(e, p + 1, |e|);
    assert p > 0 && p + 1 < |e| ==> e[p - 1].End() < e[p + 1].addr;
    CoalescedConcat(e[..p], e[p + 1..]);
  }

  lemma {:induction false} WithoutFrees(e: seq<Extent>, p: nat, u: int)
    requires Coalesced(e) && p < |e|
    ensures IsFree(Without(e, p), u) <==> IsFree(e, u) && !Holds(e[p], u)
  {
    assert e == e[..p] + [e[p]] + e[p + 1..];
    FreeConcat(e[..p] + [e[p]], e[p + 1..], u);
    FreeConcat(e[..p], [e[p]], u);
    FreeOne(e[p], u);
    FreeConcat(e[..p], e[p + 1..], u);
    if IsFree(Without(e, p), u) {
      WithoutMisses(e, p, u);
    }
  }

  lemma {:induction false} WithoutMisses(e: seq<Extent>, p: nat, u: int)
    requires Coalesced(e) && p < |e| && IsFree(Without(e, p), u)
    ensures !Holds(e[p], u)
  {
    hide Coalesced;
    var r := Without(e, p);
    var i :| 0 <= i < |r| && Holds(r[i], u);
    var j := if i < p then i else i + 1;
    assert r[i] == e[j];
    OneHolder(e, j, p, u);
  }

  lemma {:induction false} WithoutTotal(e: seq<Extent>, p: nat)
    requires p < |e|
    ensures Total(Without(e, p)) == Total(e) - e[p].size
  {
    hide Total;
    assert e == e[..p] + [e[p]] + e[p + 1..];
    TotalConcat(e[..p] + [e[p]], e[p + 1..]);
    TotalConcat(e[..p], [e[p]]);
    TotalConcat(e[..p], e[p + 1..]);
    TotalOne(e[p]);
  }

  /** A bad call keeps the map sound exactly when it does not run into the piece on the right after a left merge. */
  lemma {:induction false} BadCallDamage(e: seq<Extent>, p: nat, x: Extent)
    requires Coalesced(e) && Splits(e, p, x.addr) && x.size > 0 && Overlaps(e, x)
    ensures Coalesced(Map.AfterBadCall(e, e, p, x)) <==> !Map.Damages(e, p, x)
  {
    var t := Map.AfterBadCall(e, e, p, x);
    if Map.Damages(e, p, x) {
      assert t[p - 1].End() >= t[p].addr;
    }
  }

  // ----- taking space

  /** Units 1 and 3 are free; giving back 2 and 3 is rejected, but 2 and 3 have been added to the first piece. */
  lemma {:induction false} BadCallDoesDamage()
    ensures var e, x := [Extent(1, 1), Extent(3, 1)], Extent(2, 2);
      && Coalesced(e) && Splits(e, 1, x.addr) && Overlaps(e, x)
      && Map.AfterBadCall(e, e, 1, x) == [Extent(1, 3), Extent(3, 1)] && !Coalesced(Map.AfterBadCall(e, e, 1, x))
  {
    var e, x := [Extent(1, 1), Extent(3, 1)], Extent(2, 2);
    OverlapIsLocal(e, 1, x);
    BadCallDamage(e, 1, x);
  }

  /** Replacing an extent by a part of it takes away exactly the rest of it. */
  lemma {:induction false} ShrinkFrees(e: seq<Extent>, p: nat, y: Extent, u: int)
    requires Coalesced(e) && p < |e|
    requires e[p].addr <= y.addr && y.End() <= e[p].End() && y.size > 0
    ensures Coalesced(e[p := y])
    ensures IsFree(e[p := y], u) <==> (IsFree(e, u) && !Holds(e[p], u)) || Holds(y, u)
  {
    WithoutFrees(e, p, u);
    var r := e[p := y];
    assert r == e[..p] + [y] + e[p + 1..];
    FreeConcat(e[..p] + [y], e[p + 1..], u);
    FreeConcat(e[..p], [y], u);
    FreeOne(y, u);
    FreeConcat(e[..p], e[p + 1..], u);
  }

  lemma {:induction false} ShrinkTotal(e: seq<Extent>, p: nat, y: Extent)
    requires p < |e|
    ensures Total(e[p := y]) == Total(e) - e[p].size + y.size
  {
    assert e[p := y] == e[..p] + [y] + e[p + 1..];
    assert e == e[..p] + [e[p]] + e[p + 1..];
    TotalThree(e[..p], [y], e[p + 1..]);
    TotalThree(e[..p], [e[p]], e[p + 1..]);
    TotalOne(y);
    TotalOne(e[p]);
  }

  /** The parameters of the swap area: number of devices, largest stripe, click size. */
  datatype Swap = Swap(nswdev: int, dmmax: int, clsize: int)
  {
    predicate Valid() {
      dmmax > 0 && clsize > 0
    }

    /** Distance from the start of an extent to the next stripe boundary. */
    function First(x: Extent): int
      requires Valid()
    {
      dmmax - x.addr % dmmax
    }

    predicate Crosses(x: Extent)
      requires Valid()
    {
      nswdev > 1 && First(x) < x.size
    }

    predicate TooShortAfterBoundary(x: Extent, size: int)
      requires Valid()
    {
      Crosses(x) && x.size - First(x) < size
    }

    predicate Fits(x: Extent, size: int)
      requires Valid()
    {
      x.size >= size && !TooShortAfterBoundary(x, size)
    }

    /** The value `rmalloc` returns for space taken from x: 0 when it is not click-aligned. */
    function Answer(x: Extent): int
      requires Valid()
    {
      if Crosses(x) || Place(x) % clsize == 0 then Place(x) else 0
    }

    /** Where in a fitting extent the space is taken. */
    function Place(x: Extent): int
      requires Valid()
    {
      if Crosses(x) then x.addr + First(x) else x.addr
    }
  }

  lemma {:induction false} BoundaryInside(w: Swap, x: Extent, size: int)
    requires w.Valid() && w.Crosses(x) && w.Fits(x, size)
    ensures 0 < w.First(x) <= x.size - size && w.First(x) < x.size && w.Place(x) == x.addr + w.First(x)
  {
  }

  /** Space taken from a fitting extent never crosses a stripe boundary. */
  lemma {:induction false} PlaceStaysInStripe(w: Swap, x: Extent, size: int)
    requires w.Valid() && x.addr > 0 && 0 < size <= w.dmmax && w.Fits(x, size)
    ensures w.Crosses(x) ==> w.Place(x) % w.dmmax == 0
    ensures w.nswdev > 1 ==> w.Place(x) / w.dmmax == (w.Place(x) + size - 1) / w.dmmax
  {
    var q, r := x.addr / w.dmmax, x.addr % w.dmmax;
    assert x.addr == w.dmmax * q + r;
    if w.Crosses(x) {
      assert w.Place(x) == w.dmmax * (q + 1);
      DivModUnique(w.Place(x), w.dmmax, q + 1, 0);
      DivModUnique(w.Place(x) + size - 1, w.dmmax, q + 1, size - 1);
    } else if w.nswdev > 1 {
      DivModUnique(x.addr + size - 1, w.dmmax, q, r + size - 1);
    }
  }

  class Map {
    const slots: array<Extent>
    ghost var used: nat

    /** Whatever the entries are, they are followed by zeros to the end of the array. */
    ghost predicate Ended()
      reads this, slots
    {
      && slots.Length >= 2 && used < slots.Length
      && (forall i :: used <= i < slots.Length ==> slots[i] == NONE)
    }

    ghost function Entries(): (e: seq<Extent>)
      reads this, slots
      requires Ended()
      ensures |e| == used
    {
      slots[..used]
    }

    ghost predicate Valid()
      reads this, slots
    {
      Ended() && Coalesced(Entries())
    }

    /** The loop that moves the later pieces of the map one place to the left. */
    method CloseGap(p: nat)
      requires Ended() && p < used
      requires forall i :: p < i < used ==> slots[i].size != 0
      modifies this`used, slots
      ensures Ended() && Entries() == Without(old(Entries()), p)
    {
      var bp := p;
      ghost var was := slots[..];
      var more := true;
      while more
        invariant used == old(used) && p <= bp <= used
        invariant more == (bp < used)
        invariant slots[..bp] == was[..p] + was[p + 1..bp + 1]
        invariant forall i :: bp <= i < slots.Length ==> slots[i] == was[i]
        decreases used - bp
      {
        bp := bp + 1;
        slots[bp - 1] := slots[bp];
        more := slots[bp - 1].size != 0;
        assert slots[bp - 1] == was[bp];
      }
      assert slots[used - 1] == slots[..bp][bp - 1] == was[used];
      used := used - 1;
    }

    /** The search for the piece that starts after `addr`, or the end of the map. */
    method FindPlace(addr: int) returns (bp: nat)
      requires Valid() && addr > 0
      ensures bp <= used && Splits(Entries(), bp, addr)
    {
      bp := 0;
      while slots[bp].addr <= addr && slots[bp].size != 0
        invariant 0 <= bp <= used
        invariant forall i :: 0 <= i < bp ==> slots[i].addr <= addr
        decreases used - bp
      {
        bp := bp + 1;
      }
    }

    /** The loop that makes a new entry at p, carrying each old entry one place to the right. */
    method OpenGap(p: nat, x: Extent) returns (bp: nat)
      requires Ended() && p <= used
      requires forall i :: 0 <= i < used ==> slots[i].size != 0
      modifies slots
      ensures bp == used + 1
      ensures slots[..bp] == old(slots[..used])[..p] + [x] + old(slots[..used])[p..]
      ensures forall i :: bp <= i < slots.Length ==> slots[i] == NONE
    {
      bp := p;
      ghost var was := slots[..];
      var addr, size := x.addr, x.size;
      var more := true;
      while more
        invariant p <= bp <= used + 1
        invariant more == (bp <= used)
        invariant bp == p ==> Extent(addr, size) == x
        invariant bp > p ==> Extent(addr, size) == was[bp - 1] && slots[..bp] == was[..p] + [x] + was[p..bp - 1]
        invariant forall i :: bp <= i < slots.Length ==> slots[i] == was[i]
        invariant forall i :: 0 <= i < p ==> slots[i] == was[i]
        decreases used + 1 - bp
      {
        ghost var done := slots[..bp];
        var t := slots[bp].addr;
        var u := slots[bp].size;
        slots[bp] := Extent(addr, size);
        addr := t;
        size := u;
        bp := bp + 1;
        more := size != 0;
        assert slots[..bp] == done + [slots[bp - 1]];
        if bp - 1 > p {
          assert was[p..bp - 1] == was[p..bp - 2] + [was[bp - 2]];
        }
      }
      assert was[p..used] == was[..used][p..];
    }

    /** The returned range runs into the piece on its right after it was merged with the one on its left. */
    static ghost predicate Damages(e: seq<Extent>, p: nat, x: Extent)
      requires p <= |e|
    {
      AbutsLeft(e, p, x.addr) && p < |e| && x.End() > e[p].addr
    }

    static function Grown(s: seq<Extent>, p: nat, x: Extent): seq<Extent>
      requires 0 < p <= |s|
    {
      s[p - 1 := Extent(s[p - 1].addr, s[p - 1].size + x.size)]
    }

    static ghost function AfterBadCall(e: seq<Extent>, s: seq<Extent>, p: nat, x: Extent): seq<Extent>
      requires p <= |e| <= |s|
    {
      if Damages(e, p, x) then Grown(s, p, x) else s
    }

    /** What a successful return leaves behind, `lost` being the piece discarded when the table was full. */
    static ghost predicate GivenBack(e: seq<Extent>, p: nat, x: Extent, now: seq<Extent>, lost: Option<Extent>,
      room: nat)
    {
      && Splits(e, p, x.addr)
      && room >= 1
      && (lost.None? <==> |Returned(e, p, x)| <= room)
      && (lost.None? ==> now == Returned(e, p, x))
      && (lost.Some? ==>
            && |Returned(e, p, x)| == room + 1
            && lost.value == Returned(e, p, x)[room - 1]
            && now == Without(Returned(e, p, x), room - 1))
    }

    /** The branch of `rmfree` for a range that abuts the piece on its left. */
    method MergeLeft(bp: nat, x: Extent) returns (bad: bool)
      requires Valid() && x.addr > 0 && x.size > 0 && Splits(Entries(), bp, x.addr) && AbutsLeft(Entries(), bp, x.addr)
      modifies this`used, slots
      ensures bad <==> Damages(old(Entries()), bp, x)
      ensures bad ==> used == old(used) && slots[..] == Grown(old(slots[..]), bp, x)
      ensures !bad ==> Ended() && Entries() == Returned(old(Entries()), bp, x)
    {
      hide Coalesced, Returned, Without;
      ghost var e := Entries();
      NoneEmpty();
      assert slots[bp - 1] == e[bp - 1];
      assert bp < used ==> slots[bp] == e[bp];
      slots[bp - 1] := Extent(slots[bp - 1].addr, slots[bp - 1].size + x.size);
      if slots[bp].addr != 0 && x.addr + x.size >= slots[bp].addr {
        assert bp < used;
        if x.addr + x.size > slots[bp].addr {
          return true;
        }
        slots[bp - 1] := Extent(slots[bp - 1].addr, slots[bp - 1].size + slots[bp].size);
        assert Entries() == e[bp - 1 := Middle(e, bp, x)];
        CloseGap(bp);
        MergedBoth(e, bp, x);
      } else {
        assert !AbutsRight(e, bp, x.End());
        assert Entries() == e[bp - 1 := Middle(e, bp, x)];
        MergedLeft(e, bp, x);
      }
      bad := false;
    }

    /** The branch of `rmfree` for a range that abuts only the piece on its right. */
    method MergeRight(bp: nat, x: Extent)
      requires Valid() && bp <= used && x.size > 0
      requires !AbutsLeft(Entries(), bp, x.addr) && AbutsRight(Entries(), bp, x.End())
      modifies slots
      ensures Ended() && Entries() == Returned(old(Entries()), bp, x)
    {
      ghost var e := Entries();
      assert slots[bp] == e[bp];
      slots[bp] := Extent(slots[bp].addr - x.size, slots[bp].size + x.size);
      assert Entries() == e[bp := Middle(e, bp, x)];
    }

    /** The branch of `rmfree` that makes a new entry, discarding one if the table is then too full. */
    method Insert(p: nat, x: Extent) returns (ghost lost: Option<Extent>)
      requires Valid() && p <= used
      requires !AbutsLeft(Entries(), p, x.addr) && !AbutsRight(Entries(), p, x.End())
      modifies this`used, slots
      ensures Ended()
      ensures lost.None? <==> |Returned(old(Entries()), p, x)| < slots.Length
      ensures lost.None? ==> Entries() == Returned(old(Entries()), p, x)
      ensures lost.Some? ==>
        && lost.value == Returned(old(Entries()), p, x)[slots.Length - 2]
        && Entries() == Without(Returned(old(Entries()), p, x), slots.Length - 2)
    {
      hide Returned, AbutsLeft, AbutsRight, Coalesced, Without;
      lost := None;
      Inserted(Entries(), p, x);
      NoneEmpty();
      var bp := OpenGap(p, x);
      if bp + 1 > slots.Length {
        assert slots[..] == slots[..bp];
        lost := DropOne();
        bp := bp - 1;
      }
      used := bp;
    }

    lemma NoneEmpty()
      requires Valid()
      ensures forall i :: 0 <= i < used ==> slots[i].size != 0 && slots[i].addr > 0
    {
      assert forall i :: 0 <= i < used ==> slots[i] == Entries()[i];
    }

    /** With the table too full, the last piece but one is lost to the last. */
    method DropOne() returns (ghost lost: Option<Extent>)
      requires slots.Length >= 2
      modifies slots
      ensures lost == Some(old(slots[slots.Length - 2])) && slots[slots.Length - 1] == NONE
      ensures slots[..slots.Length - 1] == Without(old(slots[..]), slots.Length - 2)
    {
      var bp := slots.Length - 1;
      lost := Some(slots[bp - 1]);
      slots[bp - 1] := slots[bp];
      slots[bp] := NONE;
    }

    /** The body of `rmfree` once the place has been found. */
    method PutBack(bp: nat, x: Extent) returns (bad: bool, ghost lost: Option<Extent>)
      requires Valid() && x.addr > 0 && x.size > 0 && Splits(Entries(), bp, x.addr)
      modifies this`used, slots
      ensures bad <==> Overlaps(old(Entries()), x)
      ensures bad ==> used == old(used)
      ensures bad ==> slots[..] == AfterBadCall(old(Entries()), old(slots[..]), bp, x)
      ensures !bad ==> Ended() && GivenBack(old(Entries()), bp, x, Entries(), lost, slots.Length - 1)
    {
      lost := None;
      ghost var e := Entries();
      OverlapIsLocal(e, bp, x);
      assert bp < used ==> slots[bp] == e[bp];
      assert bp > 0 ==> slots[bp - 1] == e[bp - 1];
      if bp > 0 && slots[bp - 1].End() >= x.addr {
        if slots[bp - 1].End() > x.addr {
          return true, None;
        }
        bad := MergeLeft(bp, x);
      } else if x.addr + x.size >= slots[bp].addr && slots[bp].size != 0 {
        if x.addr + x.size > slots[bp].addr {
          return true, None;
        }
        MergeRight(bp, x);
        bad := false;
      } else {
        lost := Insert(bp, x);
        bad := false;
      }
    }

    /**
     * `rmfree`. It reports a bad call exactly when the arguments are not positive or the
     * range is already partly free. A bad call leaves the map alone except in the one case
     * where the left merge has been made before the overlap on the right is noticed.
     */
    method Free(size: int, addr: int) returns (bad: bool, ghost p: nat, ghost lost: Option<Extent>)
      requires Valid()
      modifies this`used, slots
      ensures bad <==> addr <= 0 || size <= 0 || Overlaps(old(Entries()), Extent(addr, size))
      ensures bad ==> used == old(used)
      ensures bad && (addr <= 0 || size <= 0) ==> slots[..] == old(slots[..])
      ensures addr > 0 && size > 0 ==> Splits(old(Entries()), p, addr)
      ensures bad && addr > 0 && size > 0 ==>
        slots[..] == AfterBadCall(old(Entries()), old(slots[..]), p, Extent(addr, size))
      ensures !bad ==>
        && Valid()
        && GivenBack(old(Entries()), p, Extent(addr, size), Entries(), lost, slots.Length - 1)
    {
      if addr <= 0 || size <= 0 {
        return true, 0, None;
      }
      ghost var e := Entries();
      var bp := FindPlace(addr);
      p := bp;
      bad, lost := PutBack(bp, Extent(addr, size));
      if !bad {
        ReturnedIsCoalesced(e, bp, Extent(addr, size));
        if lost.Some? {
          WithoutIsCoalesced(Returned(e, bp, Extent(addr, size)), slots.Length - 2);
        }
      }
    }

    /** The map after `size` units were cut off the front of entry i. */
    static function FrontTaken(e: seq<Extent>, i: nat, size: int): seq<Extent>
      requires i < |e|
    {
      if e[i].size == size then Without(e, i) else e[i := Extent(e[i].addr + size, e[i].size - size)]
    }

    /** `rmalloc` when the space starts the piece. */
    method TakeFront(bp: nat, size: int) returns (addr: int)
      requires Valid() && bp < used && 0 < size <= slots[bp].size
      modifies this`used, slots
      ensures addr == old(slots[bp].addr)
      ensures Ended() && Entries() == FrontTaken(old(Entries()), bp, size)
    {
      ghost var e := Entries();
      assert slots[bp] == e[bp];
      addr := slots[bp].addr;
      slots[bp] := Extent(slots[bp].addr + size, slots[bp].size - size);
      assert Entries() == e[bp := slots[bp]];
      assert forall i :: bp < i < used ==> slots[i] == e[i];
      if slots[bp].size == 0 {
        CloseGap(bp);
        assert Entries() == Without(e, bp);
      }
    }

    /** `bp->m_size = first;` */
    method CutTo(bp: nat, first: int)
      requires Valid() && bp < used && 0 < first <= slots[bp].size
      modifies slots
      ensures Valid()
      ensures Entries() == old(Entries())[bp := Extent(old(Entries()[bp].addr), first)]
    {
      ghost var e := Entries();
      ghost var y := Extent(e[bp].addr, first);
      assert slots[bp] == e[bp];
      ShrinkFrees(e, bp, y, 0);
      slots[bp] := Extent(slots[bp].addr, first);
      assert Entries() == e[bp := y];
    }

    /** `rmalloc` when the piece reaches into the next stripe: its tail, if any, is given back. */
    method TakeAfterBoundary(w: Swap, bp: nat, size: int) returns (addr: int, ghost p: nat, ghost lost: Option<Extent>)
      requires Valid() && w.Valid() && bp < used && size > 0
      requires w.Crosses(slots[bp]) && w.Fits(slots[bp], size)
      modifies this`used, slots
      ensures Valid()
      ensures addr == old(w.Place(slots[bp]))
      ensures CutOut(old(Entries()), bp, w.First(old(Entries())[bp]), size, Entries(), p, lost, slots.Length - 1)
    {
      hide Coalesced, GivenBack, Overlaps, Splits, Swap.First, Swap.Crosses, Swap.Fits, Swap.Place;
      ghost var e := Entries();
      ghost var x := e[bp];
      assert slots[bp] == x;
      NoneEmpty();
      BoundaryInside(w, x, size);
      var first := w.First(slots[bp]);
      addr := slots[bp].addr + first;
      var rest := slots[bp].size - first - size;
      CutTo(bp, first);
      ghost var cut := Entries();
      p, lost := 0, None;
      if rest != 0 {
        TailIsNotFree(e, bp, cut[bp], Extent(addr + size, rest));
        var bad;
        bad, p, lost := Free(rest, addr + size);
      }
    }

    /** The map after `size` units were taken out of entry i, leaving `first` units before them. */
    static ghost predicate CutOut(e: seq<Extent>, i: nat, first: int, size: int, now: seq<Extent>, p: nat,
                                  lost: Option<Extent>, room: nat)
    {
      && i < |e|
      && var next := e[i].addr + first + size;
      var cut := e[i := Extent(e[i].addr, first)];
      if next == e[i].End() then lost == None && now == cut
      else GivenBack(cut, p, Extent(next, e[i].End() - next), now, lost, room)
    }

    /** The map after `size` units were taken from entry i, wherever in it they fit. */
    static ghost predicate Taken(w: Swap, e: seq<Extent>, i: nat, size: int, now: seq<Extent>, p: nat,
                                 lost: Option<Extent>, room: nat)
      requires w.Valid()
    {
      && i < |e|
      && w.Fits(e[i], size)
      && if w.Crosses(e[i]) then CutOut(e, i, w.First(e[i]), size, now, p, lost, room)
         else lost == None && now == FrontTaken(e, i, size)
    }

    /** The body of the loop of `rmalloc` for the first piece that fits. */
    method TakeFrom(w: Swap, bp: nat, size: int) returns (addr: int, ghost p: nat, ghost lost: Option<Extent>)
      requires Valid() && w.Valid() && bp < used && 0 < size && w.Fits(slots[bp], size)
      modifies this`used, slots
      ensures Valid()
      ensures Taken(w, old(Entries()), bp, size, Entries(), p, lost, slots.Length - 1)
      ensures addr == w.Answer(old(Entries())[bp])
    {
      ghost var e := Entries();
      assert slots[bp] == e[bp];
      var first := w.dmmax - slots[bp].addr % w.dmmax;
      if w.nswdev > 1 && first < slots[bp].size {
        addr, p, lost := TakeAfterBoundary(w, bp, size);
      } else {
        p, lost := 0, None;
        addr := TakeFront(bp, size);
        FrontTakenIsCoalesced(e, bp, size);
        if addr % w.clsize != 0 {
          addr := 0;
        }
      }
    }

    /**
     * `rmalloc`. `taken` says whether space left the map, from entry `i`; the source
     * answers 0 when none did, and also when the space taken is not click-aligned.
     */
    method Allocate(w: Swap, size: int)
      returns (addr: int, ghost taken: bool, ghost i: nat, ghost p: nat, ghost lost: Option<Extent>)
      requires Valid() && w.Valid()
      modifies this`used, slots
      ensures Valid()
      ensures !taken ==> addr == 0 && slots[..] == old(slots[..]) && used == old(used)
      ensures !taken ==>
        size <= 0 || size > w.dmmax || forall k :: 0 <= k < old(used) ==> !w.Fits(old(Entries())[k], size)
      ensures taken ==>
        && 0 < size <= w.dmmax
        && Taken(w, old(Entries()), i, size, Entries(), p, lost, slots.Length - 1)
        && (forall k :: 0 <= k < i ==> !w.Fits(old(Entries())[k], size))
        && addr == w.Answer(old(Entries())[i])
    {
      addr, taken, i, p, lost := 0, false, 0, 0, None;
      if size <= 0 || size > w.dmmax {
        return;
      }
      ghost var e := Entries();
      var bp := 0;
      while slots[bp].size != 0
        invariant used == old(used) && 0 <= bp <= used
        invariant slots[..] == old(slots[..]) && Valid() && Entries() == e
        invariant forall k :: 0 <= k < bp ==> !w.Fits(e[k], size)
        decreases used - bp
      {
        assert slots[bp] == e[bp];
        if slots[bp].size >= size && !w.TooShortAfterBoundary(slots[bp], size) {
          taken, i := true, bp;
          addr, p, lost := TakeFrom(w, bp, size);
          return;
        }
        bp := bp + 1;
      }
    }
  }

  /** What is cut off an extent is no longer free. */
  lemma {:induction false} TailIsNotFree(e: seq<Extent>, p: nat, y: Extent, tail: Extent)
    requires Coalesced(e) && p < |e| && y.addr == e[p].addr && 0 < y.size
    requires y.End() <= tail.addr && tail.End() <= e[p].End()
    ensures !Overlaps(e[p := y], tail)
  {
    if Overlaps(e[p := y], tail) {
      var u :| Holds(tail, u) && IsFree(e[p := y], u);
      ShrinkFrees(e, p, y, u);
    }
  }

  /** In terms of units: the range becomes free, and on overflow one extent is lost with it. */
  lemma {:induction false} GivenBackFrees(e: seq<Extent>, p: nat, x: Extent, now: seq<Extent>,
    lost: Option<Extent>, room: nat, u: int)
    requires Coalesced(e) && x.addr > 0 && x.size > 0 && !Overlaps(e, x)
    requires |e| <= room && Map.GivenBack(e, p, x, now, lost, room)
    ensures IsFree(now, u) <==> (IsFree(e, u) || Holds(x, u)) && !(lost.Some? && Holds(lost.value, u))
  {
    hide IsFree, Coalesced, Returned, Overlaps;
    ReturnedIsCoalesced(e, p, x);
    ReturnedFrees(e, p, x, u);
    if lost.Some? {
      WithoutFrees(Returned(e, p, x), room - 1, u);
    }
  }

  lemma {:induction false} GivenBackTotal(e: seq<Extent>, p: nat, x: Extent, now: seq<Extent>,
    lost: Option<Extent>, room: nat)
    requires Coalesced(e) && x.addr > 0 && x.size > 0 && |e| <= room
    requires Map.GivenBack(e, p, x, now, lost, room)
    ensures Total(now) == Total(e) + x.size - if lost.Some? then lost.value.size else 0
    ensures lost.Some? ==> lost.value.size > 0
  {
    hide Coalesced, Returned, Total, Without;
    ReturnedTotal(e, p, x);
    if lost.Some? {
      WithoutTotal(Returned(e, p, x), room - 1);
      LostPiece(e, p, x, now, lost, room);
    }
  }

  lemma {:induction false} FrontTakenIsCoalesced(e: seq<Extent>, i: nat, size: int)
    requires Coalesced(e) && i < |e| && 0 < size <= e[i].size
    ensures Coalesced(Map.FrontTaken(e, i, size))
  {
    if e[i].size == size {
      WithoutIsCoalesced(e, i);
    } else {
      ShrinkFrees(e, i, Extent(e[i].addr + size, e[i].size - size), 0);
    }
  }

  lemma {:induction false} FrontTakenFrees(e: seq<Extent>, i: nat, size: int, u: int)
    requires Coalesced(e) && i < |e| && 0 < size <= e[i].size
    ensures IsFree(Map.FrontTaken(e, i, size), u) <==> IsFree(e, u) && !(e[i].addr <= u < e[i].addr + size)
    ensures Total(Map.FrontTaken(e, i, size)) == Total(e) - size
  {
    if Holds(e[i], u) {
      assert IsFree(e, u);
    }
    if e[i].size == size {
      WithoutFrees(e, i, u);
      WithoutTotal(e, i);
    } else {
      var y := Extent(e[i].addr + size, e[i].size - size);
      ShrinkFrees(e, i, y, u);
      ShrinkTotal(e, i, y);
    }
  }

  /** The piece discarded on overflow is a whole piece of the map, or the one just returned. */
  lemma {:induction false} LostPiece(e: seq<Extent>, p: nat, x: Extent, now: seq<Extent>, lost: Option<Extent>,
    room: nat)
    requires Coalesced(e) && x.addr > 0 && x.size > 0 && |e| <= room
    requires Map.GivenBack(e, p, x, now, lost, room) && lost.Some?
    ensures lost.value.size > 0 && (lost.value == x || lost.value in e)
  {
    assert LowSplit(e, p, x) == p == HighSplit(e, p, x);
    var r := Returned(e, p, x);
    assert Middle(e, p, x) == x;
    assert room - 1 < p ==> r[room - 1] == e[room - 1];
    assert room - 1 > p ==> r[room - 1] == e[room - 2];
  }

  /** It is the last piece but one: all but one of those that remain lie below it. */
  lemma {:induction false} LostIsLastButOne(e: seq<Extent>, p: nat, x: Extent, now: seq<Extent>, lost: Option<Extent>,
    room: nat)
    requires Coalesced(e) && x.addr > 0 && x.size > 0 && !Overlaps(e, x)
    requires Map.GivenBack(e, p, x, now, lost, room) && lost.Some?
    ensures |now| == room && lost.value.addr < now[room - 1].addr
    ensures forall i :: 0 <= i < room - 1 ==> now[i].addr < lost.value.addr
  {
    ReturnedIsCoalesced(e, p, x);
    hide Returned;
    var r := Returned(e, p, x);
    assert Coalesced(r) && now == r[..room - 1] + r[room..];
  }

  /** What is cut out: the piece shrinks, and the rest behind it, if any, goes back to the map. */
  lemma {:induction false} CutOutCases(e: seq<Extent>, i: nat, first: int, size: int, now: seq<Extent>, p: nat,
                                       lost: Option<Extent>, room: nat)
    requires Coalesced(e) && Map.CutOut(e, i, first, size, now, p, lost, room) && first + size <= e[i].size
    requires 0 < first && 0 < size
    ensures e[i].addr > 0
    ensures var next := e[i].addr + first + size;
      var cut := e[i := Extent(e[i].addr, first)];
      && Coalesced(cut) && Total(cut) == Total(e) - e[i].size + first
      && (next == e[i].End() ==> lost == None && now == cut)
      && (next < e[i].End() ==> Map.GivenBack(cut, p, Extent(next, e[i].End() - next), now, lost, room))
  {
    hide Total, IsFree, Map.GivenBack;
    ShrinkFrees(e, i, Extent(e[i].addr, first), 0);
    ShrinkTotal(e, i, Extent(e[i].addr, first));
  }

  lemma ThreeParts(x: Extent, first: int, size: int, u: int)
    requires 0 < first && 0 < size && first + size <= x.size
    ensures var next := x.addr + first + size;
      var head, cut, tail := Extent(x.addr, first), x.addr + first <= u < next, Extent(next, x.End() - next);
      && (Holds(x, u) <==> Holds(head, u) || cut || Holds(tail, u))
      && !(Holds(head, u) && cut) && !(cut && Holds(tail, u))
      && (next == x.End() ==> !Holds(tail, u))
  {
  }

  lemma {:induction false} CutOutFrees(e: seq<Extent>, i: nat, first: int, size: int, now: seq<Extent>, p: nat,
                    lost: Option<Extent>, room: nat, u: int)
    requires Coalesced(e) && i < |e| <= room && 0 < first && 0 < size && first + size <= e[i].size
    requires Map.CutOut(e, i, first, size, now, p, lost, room)
    ensures IsFree(now, u) <==>
      IsFree(e, u) && !(e[i].addr + first <= u < e[i].addr + first + size) && !(lost.Some? && Holds(lost.value, u))
  {
    hide IsFree, Coalesced, Map.GivenBack, Map.CutOut, Overlaps, Total, Holds;
    var x, next := e[i], e[i].addr + first + size;
    var y := Extent(x.addr, first);
    FreeInPiece(e, i, u);
    ShrinkFrees(e, i, y, u);
    CutOutCases(e, i, first, size, now, p, lost, room);
    ThreeParts(x, first, size, u);
    if next < x.End() {
      var tail := Extent(next, x.End() - next);
      TailIsNotFree(e, i, y, tail);
      GivenBackFrees(e[i := y], p, tail, now, lost, room, u);
    }
  }

  lemma {:induction false} FreeInPiece(e: seq<Extent>, i: nat, u: int)
    requires i < |e|
    ensures Holds(e[i], u) ==> IsFree(e, u)
  {
  }

  lemma {:induction false} CutOutTotal(e: seq<Extent>, i: nat, first: int, size: int, now: seq<Extent>, p: nat,
                    lost: Option<Extent>, room: nat)
    requires Coalesced(e) && i < |e| <= room && 0 < first && 0 < size && first + size <= e[i].size
    requires Map.CutOut(e, i, first, size, now, p, lost, room)
    ensures Total(now) == Total(e) - size - if lost.Some? then lost.value.size else 0
    ensures lost.Some? ==> lost.value.size > 0
  {
    hide Total, IsFree, Coalesced, Map.GivenBack, Map.CutOut;
    CutOutCases(e, i, first, size, now, p, lost, room);
    var next := e[i].addr + first + size;
    if next < e[i].End() {
      GivenBackTotal(e[i := Extent(e[i].addr, first)], p, Extent(next, e[i].End() - next), now, lost, room);
    }
  }

  /** In terms of units: exactly the allocated range leaves the map, and on overflow one extent more. */
  lemma {:induction false} TakenFrees(w: Swap, e: seq<Extent>, i: nat, size: int, now: seq<Extent>, p: nat,
                   lost: Option<Extent>, room: nat, u: int)
    requires w.Valid() && Coalesced(e) && 0 < size <= w.dmmax && |e| <= room
    requires Map.Taken(w, e, i, size, now, p, lost, room)
    ensures w.Place(e[i]) <= u < w.Place(e[i]) + size ==> IsFree(e, u)
    ensures IsFree(now, u) <==>
      IsFree(e, u) && !(w.Place(e[i]) <= u < w.Place(e[i]) + size) && !(lost.Some? && Holds(lost.value, u))
    ensures Total(now) == Total(e) - size - if lost.Some? then lost.value.size else 0
    ensures lost.Some? ==> lost.value.size > 0
  {
    if w.Place(e[i]) <= u < w.Place(e[i]) + size {
      assert Holds(e[i], u);
    }
    if w.Crosses(e[i]) {
      CutOutFrees(e, i, w.First(e[i]), size, now, p, lost, room, u);
      CutOutTotal(e, i, w.First(e[i]), size, now, p, lost, room);
    } else {
      FrontTakenFrees(e, i, size, u);
    }
  }

  // ----- doswap's count of the available pieces

  /** The first extent is the first run of free units. */
  lemma {:induction false} FirstRun(e: seq<Extent>)
    requires Coalesced(e) && e != []
    ensures forall u :: u < e[0].addr ==> !IsFree(e, u)
    ensures forall u :: Holds(e[0], u) ==> IsFree(e, u)
    ensures !IsFree(e, e[0].End())
  {
    forall u | u < e[0].addr || u == e[0].End() ensures !IsFree(e, u) {
      assert forall i :: 0 < i < |e| ==> e[0].End() < e[i].addr;
    }
  }

  ghost predicate SameFree(a: seq<Extent>, b: seq<Extent>) {
    forall u :: IsFree(a, u) <==> IsFree(b, u)
  }

  /** A map is determined by which units are free. */
  lemma {:induction false} CoalescedUnique(a: seq<Extent>, b: seq<Extent>)
    requires Coalesced(a) && Coalesced(b) && SameFree(a, b)
    ensures a == b
    decreases |a|
  {
    hide Coalesced, SameFree, Without;
    SameEmpty(a, b);
    if a != [] && b != [] {
      SameRest(a, b);
      FirstAndRest(a);
      FirstAndRest(b);
      CoalescedUnique(Without(a, 0), Without(b, 0));
    }
  }

  lemma {:induction false} FirstAndRest(e: seq<Extent>)
    requires e != []
    ensures e == [e[0]] + Without(e, 0) && |Without(e, 0)| == |e| - 1
  {
  }

  lemma {:induction false} SameRest(a: seq<Extent>, b: seq<Extent>)
    requires Coalesced(a) && Coalesced(b) && a != [] && b != [] && SameFree(a, b)
    ensures a[0] == b[0]
    ensures Coalesced(Without(a, 0)) && Coalesced(Without(b, 0)) && SameFree(Without(a, 0), Without(b, 0))
  {
    SameFirst(a, b);
    WithoutIsCoalesced(a, 0);
    WithoutIsCoalesced(b, 0);
    hide Coalesced, IsFree, Without;
    forall u ensures IsFree(Without(a, 0), u) <==> IsFree(Without(b, 0), u) {
      WithoutFrees(a, 0, u);
      WithoutFrees(b, 0, u);
    }
  }

  lemma {:induction false} SameFirst(a: seq<Extent>, b: seq<Extent>)
    requires Coalesced(a) && Coalesced(b) && a != [] && b != []
    requires SameFree(a, b)
    ensures a[0] == b[0]
  {
    FirstRun(a);
    FirstRun(b);
    assert Holds(a[0], a[0].addr) && Holds(b[0], b[0].addr);
    assert a[0].addr == b[0].addr;
    assert !Holds(b[0], a[0].End()) && !Holds(a[0], b[0].End());
  }

  lemma SameEmpty(a: seq<Extent>, b: seq<Extent>)
    requires Coalesced(a) && Coalesced(b) && SameFree(a, b)
    ensures a == [] <==> b == []
  {
    SomethingFree(a);
    SomethingFree(b);
  }

  lemma SomethingFree(e: seq<Extent>)
    requires Coalesced(e)
    ensures e == [] <==> forall u :: !IsFree(e, u)
  {
    if e != [] {
      FirstRun(e);
      assert Holds(e[0], e[0].addr);
    }
  }

  lemma PlacePositive(w: Swap, e: seq<Extent>, i: nat)
    requires w.Valid() && Coalesced(e) && i < |e|
    ensures w.Place(e[i]) > 0
  {
  }

  /**
   * `rmfree` undoes `rmalloc`: when space has been taken and is given back, and neither found
   * the table too full, the map is what it was, piece by piece.
   */
  lemma {:induction false} AllocateThenFree(w: Swap, e: seq<Extent>, i: nat, size: int, mid: seq<Extent>, p: nat,
    q: nat, now: seq<Extent>, room: nat)
    requires w.Valid() && Coalesced(e) && 0 < size <= w.dmmax && i < |e| <= room
    requires Map.Taken(w, e, i, size, mid, p, None, room) && Coalesced(mid) && |mid| <= room
    requires Map.GivenBack(mid, q, Extent(w.Place(e[i]), size), now, None, room)
    ensures now == e
  {
    hide Coalesced, Map.Taken, Swap.Place;
    PlacePositive(w, e, i);
    var x := Extent(w.Place(e[i]), size);
    forall u ensures Holds(x, u) ==> !IsFree(mid, u) && IsFree(e, u) {
      TakenFrees(w, e, i, size, mid, p, None, room, u);
    }
    ReturnedIsCoalesced(mid, q, x);
    forall u ensures IsFree(now, u) <==> IsFree(e, u) {
      TakenFrees(w, e, i, size, mid, p, None, room, u);
      GivenBackFrees(mid, q, x, now, None, room, u);
    }
    CoalescedUnique(now, e);
  }

  /** With clicks of 2 units, unit 1 is taken from the map, and the answer is 0. */
  lemma {:induction false} MisalignedIsLost()
    ensures var w, e := Swap(1, 8, 2), [Extent(1, 4)];
      && w.Valid() && Coalesced(e) && w.Fits(e[0], 1)
      && Map.Taken(w, e, 0, 1, [Extent(2, 3)], 0, None, 10) && w.Answer(e[0]) == 0
  {
    var e := [Extent(1, 4)];
    assert Map.FrontTaken(e, 0, 1) == [Extent(2, 3)];
  }

  ghost predicate Aligned(e: seq<Extent>, c: int)
    requires c > 0
  {
    forall i :: 0 <= i < |e| ==> Divides(c, e[i].addr) && Divides(c, e[i].size)
  }

  /** Total of the pieces counted so far: j pieces of i units for each line printed. */
  function Counted(lines: seq<(int, int)>): int {
    if lines == [] then 0 else Counted(lines[..|lines| - 1]) + lines[|lines| - 1].0 * lines[|lines| - 1].1
  }

  /** One call of `rmalloc`, in totals. */
  method TakeOne(m: Map, w: Swap, i: int) returns (addr: int, ghost taken: bool, ghost lost: int)
    requires m.Valid() && w.Valid() && 0 < i
    modifies m`used, m.slots
    ensures m.Valid() && lost >= 0 && Total(m.Entries()) >= 0
    ensures if taken then Total(m.Entries()) == old(Total(m.Entries())) - i - lost
      else addr == 0 && lost == 0 && Total(m.Entries()) == old(Total(m.Entries()))
    ensures !taken ==> i > w.dmmax || forall k :: 0 <= k < |m.Entries()| ==> !w.Fits(m.Entries()[k], i)
    ensures taken && Aligned(old(m.Entries()), w.clsize) && Divides(w.clsize, w.dmmax) ==> addr != 0
    ensures Aligned(old(m.Entries()), w.clsize) && Divides(w.clsize, w.dmmax) && Divides(w.clsize, i) ==>
      Aligned(m.Entries(), w.clsize)
  {
    hide Total, IsFree, Aligned, Map.Taken;
    ghost var e := m.Entries();
    ghost var at, p, gone;
    addr, taken, at, p, gone := m.Allocate(w, i);
    lost := 0;
    TotalNotNegative(m.Entries());
    if taken {
      TakenFrees(w, e, at, i, m.Entries(), p, gone, m.slots.Length - 1, 0);
      lost := if gone.Some? then gone.value.size else 0;
      if Aligned(e, w.clsize) && Divides(w.clsize, w.dmmax) {
        AnswerOfAligned(w, e, at);
        if Divides(w.clsize, i) {
          TakenStaysAligned(w, e, at, i, m.Entries(), p, gone, m.slots.Length - 1);
        }
      }
    }
  }

  lemma {:induction false} AnswerOfAligned(w: Swap, e: seq<Extent>, i: nat)
    requires w.Valid() && Coalesced(e) && i < |e| && Aligned(e, w.clsize) && Divides(w.clsize, w.dmmax)
    ensures w.Answer(e[i]) == w.Place(e[i]) > 0 && Divides(w.clsize, w.Place(e[i])) && Divides(w.clsize, w.First(e[i]))
  {
    var q, r := e[i].addr / w.dmmax, e[i].addr % w.dmmax;
    DividesCombination(w.clsize, e[i].addr, 1, w.dmmax, -q);
    assert r == e[i].addr * 1 + w.dmmax * -q;
    DividesDifference(w.clsize, w.dmmax, r);
    DividesSum(w.clsize, e[i].addr, w.First(e[i]));
  }

  lemma {:induction false} AlignedReturned(e: seq<Extent>, p: nat, x: Extent, c: int)
    requires c > 0 && p <= |e| && Aligned(e, c) && Divides(c, x.addr) && Divides(c, x.size)
    ensures Aligned(Returned(e, p, x), c)
  {
    hide Divides;
    DividesSum(c, x.addr, x.size);
    var m := Middle(e, p, x);
    if AbutsRight(e, p, x.End()) {
      DividesSum(c, e[p].addr, e[p].size);
    }
    DividesDifference(c, m.End(), m.addr);
    var low, high := LowSplit(e, p, x), HighSplit(e, p, x);
    forall i | 0 <= i < |Returned(e, p, x)|
      ensures Divides(c, Returned(e, p, x)[i].addr) && Divides(c, Returned(e, p, x)[i].size)
    {
      if i > low {
        assert Returned(e, p, x)[i] == e[high + (i - low - 1)];
      }
    }
  }

  lemma {:induction false} CutOutStaysAligned(e: seq<Extent>, i: nat, first: int, size: int, now: seq<Extent>, p: nat,
                           lost: Option<Extent>, room: nat, c: int)
    requires i < |e| && c > 0 && Map.CutOut(e, i, first, size, now, p, lost, room)
    requires Aligned(e, c) && Divides(c, first) && Divides(c, size)
    ensures Aligned(now, c)
  {
    hide Divides;
    var x := e[i];
    var y := Extent(x.addr, first);
    var next := x.addr + first + size;
    DividesSum(c, x.addr, first);
    DividesSum(c, x.addr + first, size);
    DividesSum(c, x.addr, x.size);
    DividesDifference(c, x.End(), next);
    assert Aligned(e[i := y], c);
    if next != x.End() {
      AlignedReturned(e[i := y], p, Extent(next, x.End() - next), c);
    }
  }

  lemma {:induction false} FrontTakenStaysAligned(e: seq<Extent>, i: nat, size: int, c: int)
    requires i < |e| && c > 0 && Aligned(e, c) && Divides(c, size)
    ensures Aligned(Map.FrontTaken(e, i, size), c)
  {
    hide Divides;
    DividesSum(c, e[i].addr, size);
    DividesDifference(c, e[i].size, size);
  }

  lemma {:induction false} TakenStaysAligned(w: Swap, e: seq<Extent>, i: nat, size: int, now: seq<Extent>, p: nat,
                          lost: Option<Extent>, room: nat)
    requires w.Valid() && Coalesced(e)
    requires Map.Taken(w, e, i, size, now, p, lost, room)
    requires Aligned(e, w.clsize) && Divides(w.clsize, w.dmmax) && Divides(w.clsize, size)
    ensures Aligned(now, w.clsize)
  {
    AnswerOfAligned(w, e, i);
    if w.Crosses(e[i]) {
      CutOutStaysAligned(e, i, w.First(e[i]), size, now, p, lost, room, w.clsize);
    } else {
      FrontTakenStaysAligned(e, i, size, w.clsize);
    }
  }

  function Repeated(j: nat, i: int): int {
    if j == 0 then 0 else Repeated(j - 1, i) + i
  }

  lemma {:induction false} RepeatedIsProduct(j: nat, i: int)
    ensures Repeated(j, i) == j * i
  {
    if j > 0 {
      RepeatedIsProduct(j - 1, i);
    }
  }

  /** The inner loop: take pieces of one size until `rmalloc` answers 0. */
  method CountOneSize(m: Map, w: Swap, i: int) returns (j: int, ghost lost: int, ghost dropped: int)
    requires m.Valid() && w.Valid() && 0 < i
    modifies m`used, m.slots
    ensures m.Valid() && j >= 0 && lost >= 0 && dropped >= 0
    ensures j * i + Total(m.Entries()) + lost + dropped == old(Total(m.Entries()))
    ensures dropped == 0 ==>
      i > w.dmmax || forall k :: 0 <= k < |m.Entries()| ==> !w.Fits(m.Entries()[k], i)
    ensures Aligned(old(m.Entries()), w.clsize) && Divides(w.clsize, w.dmmax) && Divides(w.clsize, i) ==>
      dropped == 0 && Aligned(m.Entries(), w.clsize)
  {
    hide Total, Aligned, Divides, Coalesced, Swap.Fits;
    j, lost, dropped := 0, 0, 0;
    ghost var start := Total(m.Entries());
    ghost var aligned := Aligned(m.Entries(), w.clsize) && Divides(w.clsize, w.dmmax) && Divides(w.clsize, i);
    var more := true;
    SizesPositive(m.Entries());
    TotalNotNegative(m.Entries());
    while more
      invariant m.Valid() && j >= 0 && lost >= 0 && dropped >= 0
      invariant Repeated(j, i) + Total(m.Entries()) + lost + dropped == start
      invariant Total(m.Entries()) >= 0
      invariant more ==> dropped == 0
      invariant !more && dropped == 0 ==>
        i > w.dmmax || forall k :: 0 <= k < |m.Entries()| ==> !w.Fits(m.Entries()[k], i)
      invariant aligned ==> dropped == 0 && Aligned(m.Entries(), w.clsize)
      decreases more, Total(m.Entries())
    {
      var addr;
      ghost var taken, gone;
      addr, taken, gone := TakeOne(m, w, i);
      lost := lost + gone;
      if addr != 0 {
        j := j + 1;
      } else {
        dropped := if taken then i else 0;
        more := false;
      }
    }
    RepeatedIsProduct(j, i);
  }

  lemma {:induction false} TotalNotNegative(e: seq<Extent>)
    requires forall i :: 0 <= i < |e| ==> e[i].size > 0
    ensures Total(e) >= 0
  {
    if e != [] {
      TotalNotNegative(e[..|e| - 1]);
    }
  }

  lemma {:induction false} TotalOfZeros(e: seq<Extent>)
    requires forall i :: 0 <= i < |e| ==> e[i] == NONE
    ensures Total(e) == 0
  {
    if e != [] {
      TotalOfZeros(e[..|e| - 1]);
    }
  }

  /** The loop that adds up the sizes in all slots, terminator and unused slots included. */
  method SumSlots(m: Map) returns (free: int)
    requires m.Valid()
    ensures free == Total(m.Entries())
  {
    free := 0;
    var me := 0;
    while me < m.slots.Length
      invariant 0 <= me <= m.slots.Length
      invariant free == Total(m.slots[..me])
    {
      free := free + m.slots[me].size;
      me := me + 1;
      assert m.slots[..me][..me - 1] == m.slots[..me - 1];
    }
    assert m.slots[..me] == m.Entries() + m.slots[m.used..];
    TotalConcat(m.Entries(), m.slots[m.used..]);
    TotalOfZeros(m.slots[m.used..]);
  }

  lemma {:induction false} CountedAppend(lines: seq<(int, int)>, j: int, i: int)
    ensures Counted(lines + [(j, i)]) == Counted(lines) + j * i
  {
    assert (lines + [(j, i)])[..|lines|] == lines;
  }

  function Doubled(n: nat, k: nat): nat {
    if k == 0 then n else 2 * Doubled(n, k - 1)
  }

  lemma {:induction false} DoubledDivides(c: int, n: nat, k: nat)
    requires c > 0 && Divides(c, n)
    ensures Divides(c, Doubled(n, k))
  {
    if k > 0 {
      DoubledDivides(c, n, k - 1);
      DividesCombination(c, Doubled(n, k - 1), 2, 0, 0);
    }
  }

  lemma {:induction false} DoubledGrows(n: nat, k: nat)
    requires n >= 1
    ensures Doubled(n, k) >= n
  {
    if k > 0 {
      DoubledGrows(n, k - 1);
    }
  }

  /**
   * The end of `doswap`: count how many pieces of dmmax, dmmax/2, ... units the map can
   * still supply. What is counted, what remains and what overflow or misalignment took
   * add up to what was free; with aligned space and dmmax a doubling of dmmin nothing is
   * dropped, and in the end not even one piece of dmmin units is left.
   */
  method CountAvailable(m: Map, w: Swap, dmmin: nat, ghost doublings: nat)
    returns (lines: seq<(int, int)>, free: int, ghost lost: int, ghost dropped: int)
    requires m.Valid() && w.Valid() && dmmin >= 1
    modifies m`used, m.slots
    ensures m.Valid() && free == Total(m.Entries()) && lost >= 0 && dropped >= 0
    ensures Counted(lines) + free + lost + dropped == old(Total(m.Entries()))
    ensures w.dmmax == Doubled(dmmin, doublings) && Divides(w.clsize, dmmin) && Aligned(old(m.Entries()), w.clsize) ==>
      && dropped == 0
      && forall k :: 0 <= k < |m.Entries()| ==> !w.Fits(m.Entries()[k], dmmin)
  {
    hide Total, Coalesced, Aligned;
    lines, lost, dropped := [], 0, 0;
    ghost var start := Total(m.Entries());
    ghost var clean :=
      w.dmmax == Doubled(dmmin, doublings) && Divides(w.clsize, dmmin) && Aligned(m.Entries(), w.clsize);
    ghost var k: int := doublings;
    var i := w.dmmax;
    if clean {
      DoubledDivides(w.clsize, dmmin, doublings);
    }
    while i >= dmmin
      invariant m.Valid() && 0 <= i <= w.dmmax && lost >= 0 && dropped >= 0
      invariant Counted(lines) + Total(m.Entries()) + lost + dropped == start
      invariant clean ==> -1 <= k && Divides(w.clsize, w.dmmax) && dropped == 0 && Aligned(m.Entries(), w.clsize)
      invariant clean && k >= 0 ==> i == Doubled(dmmin, k)
      invariant clean && k == -1 ==> i < dmmin && forall k :: 0 <= k < |m.Entries()| ==> !w.Fits(m.Entries()[k], dmmin)
      decreases i
    {
      if clean {
        DoubledDivides(w.clsize, dmmin, k);
      }
      var j;
      ghost var gone, skipped;
      j, gone, skipped := CountOneSize(m, w, i);
      lost, dropped := lost + gone, dropped + skipped;
      if j != 0 {
        CountedAppend(lines, j, i);
        lines := lines + [(j, i)];
      }
      i := i / 2;
      k := k - 1;
    }
    if clean && k >= 0 {
      DoubledGrows(dmmin, k);
    }
    free := SumSlots(m);
  }
}
