/**
 * Surgery on the array of line handles in bin/ed.c: `move` by three reversals, `rdelete`,
 * and `gdelete`, which does in one pass what deleting the marked lines one by one does.
 */
module LineEdit {

  /** A handle with its mark, `|= 01` and `&= ~01`. */
  predicate Marked(h: nat) {
    h % 2 == 1
  }

  function Unmarked(h: nat): (u: nat)
    ensures !Marked(u) && u <= h <= u + 1
  {
    h / 2 * 2
  }

  /** The lines with the marks taken off those in [from, to). */
  function Cleared(s: seq<nat>, from: nat, to: nat): (t: seq<nat>)
    requires from <= to <= |s|
    ensures |t| == |s|
    ensures forall i :: 0 <= i < |s| ==> t[i] == if from <= i < to then Unmarked(s[i]) else s[i]
  {
    seq(|s|, i requires 0 <= i < |s| => if from <= i < to then Unmarked(s[i]) else s[i])
  }

  // ----- moving lines

  /** The lines [from, to) of s put behind the first `after` lines, which are not among them. */
  function Moved(s: seq<nat>, from: nat, to: nat, after: nat): (r: seq<nat>)
    requires from <= to <= |s| && after <= |s| && (after <= from || to <= after)
    ensures |r| == |s|
  {
    if after <= from then s[..after] + s[from..to] + s[after..from] + s[to..]
    else s[..from] + s[to..after] + s[from..to] + s[after..]
  }

  /** Where the moved lines are afterwards. */
  function MovedTo(from: nat, to: nat, after: nat): nat
    requires from <= to && (after <= from || to <= after)
  {
    if after <= from then after else after - (to - from)
  }

  lemma FourParts(a: seq<nat>, b: seq<nat>, c: seq<nat>, d: seq<nat>)
    ensures var s := a + b + c + d;
      && s[..|a|] == a && s[|a|..|a| + |b|] == b
      && s[|a| + |b|..|a| + |b| + |c|] == c && s[|a| + |b| + |c|..] == d
  {
  }

  /** The moved lines are together there, and the others keep their order. */
  lemma MovedPlaces(s: seq<nat>, from: nat, to: nat, after: nat)
    requires from <= to <= |s| && after <= |s| && (after <= from || to <= after)
    ensures var r, at := Moved(s, from, to, after), MovedTo(from, to, after);
      && r[at..at + (to - from)] == s[from..to]
      && r[..at] + r[at + (to - from)..] == s[..from] + s[to..]
  {
    var r := Moved(s, from, to, after);
    if after <= from {
      FourParts(s[..after], s[from..to], s[after..from], s[to..]);
      OthersUp(r, s, from, to, after);
    } else {
      FourParts(s[..from], s[to..after], s[from..to], s[after..]);
      OthersDown(r, s, from, to, after);
    }
  }

  lemma OthersUp(r: seq<nat>, s: seq<nat>, from: nat, to: nat, after: nat)
    requires after <= from <= to <= |s| == |r|
    requires r[..after] == s[..after] && r[after + (to - from)..to] == s[after..from] && r[to..] == s[to..]
    ensures r[..after] + r[after + (to - from)..] == s[..from] + s[to..]
  {
    assert r[after + (to - from)..] == s[after..from] + s[to..];
  }

  lemma OthersDown(r: seq<nat>, s: seq<nat>, from: nat, to: nat, after: nat)
    requires from <= to <= after <= |s| == |r|
    requires r[..from] == s[..from] && r[from..after - (to - from)] == s[to..after] && r[after..] == s[after..]
    ensures r[..after - (to - from)] + r[after..] == s[..from] + s[to..]
  {
    assert r[..after - (to - from)] == s[..from] + s[to..after];
  }

  lemma Whole(s: seq<nat>, i: nat, j: nat, k: nat)
    requires i <= j <= k <= |s|
    ensures s == s[..i] + s[i..j] + s[j..k] + s[k..]
  {
  }

  lemma SameLines(a: seq<nat>, b: seq<nat>, c: seq<nat>, d: seq<nat>)
    ensures multiset(a + c + b + d) == multiset(a + b + c + d)
  {
  }

  /** No line is lost or doubled. */
  lemma MovedSame(s: seq<nat>, from: nat, to: nat, after: nat)
    requires from <= to <= |s| && after <= |s| && (after <= from || to <= after)
    ensures multiset(Moved(s, from, to, after)) == multiset(s)
  {
    if after <= from {
      Whole(s, after, from, to);
      SameLines(s[..after], s[after..from], s[from..to], s[to..]);
    } else {
      Whole(s, from, to, after);
      SameLines(s[..from], s[from..to], s[to..after], s[after..]);
    }
  }

  lemma MovedNowhere(s: seq<nat>, from: nat, to: nat)
    requires from <= to <= |s|
    ensures Moved(s, from, to, from) == s
  {
  }

  /** The line before the moved ones is the one they were to follow. */
  lemma MovedFollows(s: seq<nat>, from: nat, to: nat, after: nat)
    requires from <= to <= |s| && 0 < after <= |s| && (after <= from || to < after)
    ensures MovedTo(from, to, after) > 0 && Moved(s, from, to, after)[MovedTo(from, to, after) - 1] == s[after - 1]
  {
  }

  /** Moving the lines back restores the order. */
  lemma MovedBack(s: seq<nat>, from: nat, to: nat, after: nat)
    requires from <= to <= |s| && after <= |s| && (after <= from || to <= after)
    ensures var at := MovedTo(from, to, after);
      Moved(Moved(s, from, to, after), at, at + (to - from), if after <= from then to else from) == s
  {
    if after <= from {
      FourParts(s[..after], s[from..to], s[after..from], s[to..]);
      Whole(s, after, from, to);
    } else {
      FourParts(s[..from], s[to..after], s[from..to], s[after..]);
      Whole(s, from, to, after);
    }
  }

  /** The entries [a, b) and [b, c) of the array have changed places. */
  ghost predicate Exchanged(was: seq<nat>, now: seq<nat>, a: nat, b: nat, c: nat) {
    && a <= b <= c <= |was| == |now|
    && (forall k :: a <= k < a + (c - b) ==> now[k] == was[k + (b - a)])
    && (forall k :: a + (c - b) <= k < c ==> now[k] == was[k - (c - b)])
    && (forall k :: 0 <= k < |was| && !(a <= k < c) ==> now[k] == was[k])
  }

  lemma ExchangedIsMoved(s: seq<nat>, t: seq<nat>, a: nat, b: nat, c: nat)
    requires Exchanged(s, t, a, b, c) && a < c
    ensures t == Moved(s, b, c, a) == Moved(s, a, b, c)
  {
  }

  /** Seen as lines, the array without its entry 0: to exchange two blocks is to move either one past the other. */
  lemma ExchangedLines(was: seq<nat>, now: seq<nat>, a: nat, b: nat, c: nat, dol: nat)
    requires Exchanged(was, now, a + 1, b + 1, c + 1) && a < c <= dol < |was|
    ensures var s, t := was[1..dol + 1], now[1..dol + 1]; t == Moved(s, b, c, a) == Moved(s, a, b, c)
  {
    hide Moved;
    var s, t := was[1..dol + 1], now[1..dol + 1];
    assert forall k :: 0 <= k < dol ==> t[k] == now[k + 1] && s[k] == was[k + 1];
    ExchangedIsMoved(s, t, a, b, c);
  }

  // ----- deleting lines

  /** What is left when the marked lines go. */
  function Kept(s: seq<nat>): (r: seq<nat>)
    ensures |r| <= |s|
    ensures (forall i :: 0 <= i < |s| ==> !Marked(s[i])) ==> r == s
  {
    if s == [] then []
    else if Marked(s[|s| - 1]) then Kept(s[..|s| - 1])
    else Kept(s[..|s| - 1]) + [s[|s| - 1]]
  }

  lemma {:induction false} KeptConcat(a: seq<nat>, b: seq<nat>)
    ensures Kept(a + b) == Kept(a) + Kept(b)
  {
    if b == [] {
      assert a + b == a;
    } else {
      KeptConcat(a, b[..|b| - 1]);
      assert (a + b)[..|a + b| - 1] == a + b[..|b| - 1];
    }
  }

  predicate SomeMarked(s: seq<nat>) {
    exists i :: 0 <= i < |s| && Marked(s[i])
  }

  /** The index of the last marked line. */
  function LastMarked(s: seq<nat>): (i: nat)
    requires SomeMarked(s)
    ensures i < |s| && Marked(s[i])
    ensures forall j :: i < j < |s| ==> !Marked(s[j])
  {
    if Marked(s[|s| - 1]) then |s| - 1
    else
      assert SomeMarked(s[..|s| - 1]) by {
        var i :| 0 <= i < |s| && Marked(s[i]);
        assert s[..|s| - 1][i] == s[i];
      }
      LastMarked(s[..|s| - 1])
  }

  function Min(a: nat, b: nat): nat {
    if a <= b then a else b
  }

  ghost predicate OneMarked(s: seq<nat>) {
    SomeMarked(s) && forall i :: 0 <= i < LastMarked(s) ==> !Marked(s[i])
  }

  /**
   * Of three lines the second is marked, and the first is current. For `gdelete` the first stays
   * current; deleting one by one makes the line after the deleted one current.
   */
  lemma OneMarkDiffers(a: nat, b: nat, c: nat)
    requires !Marked(a) && Marked(b) && !Marked(c)
    ensures var s := [a, b, c];
      OneMarked(s) && Kept(s) == [a, c] && Min(1, |Kept(s)|) == 1 && DotAfter(s, 1) == 2
  {
    var s := [a, b, c];
    assert s[..2] == [a, b] && [a, b][..1] == [a] && [a][..0] == [];
    assert Marked(s[1]);
    assert Kept([a]) == [a] && Kept([a, b]) == [a];
    assert LastMarked(s) == 1 && s[..1] == [a];
  }

  /** Up to its first mark nothing is deleted. */
  lemma FirstMark(s: seq<nat>, p: nat, dot: nat)
    requires p < |s| && Marked(s[p]) && forall i :: 0 <= i < p ==> !Marked(s[i])
    ensures SomeMarked(s[..p + 1]) && Kept(s[..p + 1]) == s[..p] && DotSoFar(s, p + 1, dot) == dot
  {
    assert s[..p + 1][p] == s[p] && s[..p + 1][..p] == s[..p];
  }

  lemma NothingMarked(s: seq<nat>, dot: nat)
    requires forall i :: 0 <= i < |s| ==> !Marked(s[i])
    ensures Kept(s) == s && DotAfter(s, dot) == dot
  {
  }

  /** The current line when `gdelete` has come to line n: it is set at each mark but the first. */
  ghost function DotSoFar(s: seq<nat>, n: nat, dot: nat): nat
    requires n <= |s| && SomeMarked(s[..n])
  {
    if OneMarked(s[..n]) then dot else |Kept(s[..LastMarked(s[..n])])| + 1
  }

  /** One line further. */
  lemma NextLine(s: seq<nat>, n: nat, dot: nat)
    requires n < |s| && SomeMarked(s[..n])
    ensures SomeMarked(s[..n + 1])
    ensures Kept(s[..n + 1]) == if Marked(s[n]) then Kept(s[..n]) else Kept(s[..n]) + [s[n]]
    ensures DotSoFar(s, n + 1, dot) == if Marked(s[n]) then |Kept(s[..n])| + 1 else DotSoFar(s, n, dot)
  {
    var a, b := s[..n], s[..n + 1];
    assert b[..n] == a;
    var i :| 0 <= i < |a| && Marked(a[i]);
    assert Marked(b[i]) && i < n;
    assert forall j :: 0 <= j < n ==> a[j] == b[j];
    assert LastMarked(b) == if Marked(s[n]) then n else LastMarked(a);
  }

  /** The current line after the marked lines are deleted one by one: the line that follows the last of them. */
  function DotAfter(s: seq<nat>, dot: nat): nat {
    if SomeMarked(s) then Min(|Kept(s[..LastMarked(s)])| + 1, |Kept(s)|) else dot
  }

  /** A marked line does not count. */
  lemma KeptWithout(s: seq<nat>, p: nat, end: nat)
    requires p < end <= |s| && Marked(s[p])
    ensures Kept(s[..end]) == Kept(s[..p] + s[p + 1..end])
  {
    assert s[..end] == s[..p] + [s[p]] + s[p + 1..end];
    assert Kept([s[p]]) == [] by {
      assert [s[p]][..0] == [];
    }
    hide Kept;
    KeptConcat(s[..p] + [s[p]], s[p + 1..end]);
    KeptConcat(s[..p], [s[p]]);
    KeptConcat(s[..p], s[p + 1..end]);
  }

  /** Deleting the first marked line leaves the same lines to be kept, and leads to the same current line. */
  lemma DeleteFirst(s: seq<nat>, p: nat, dot: nat)
    requires p < |s| && Marked(s[p]) && forall i :: 0 <= i < p ==> !Marked(s[i])
    ensures var t := s[..p] + s[p + 1..];
      Kept(t) == Kept(s) && DotAfter(t, Min(p + 1, |t|)) == DotAfter(s, dot)
  {
    hide Kept, LastMarked, Marked;
    var t := s[..p] + s[p + 1..];
    KeptWithout(s, p, |s|);
    assert s[..|s|] == s && s[p + 1..|s|] == s[p + 1..];
    var last := LastMarked(s);
    assert forall i :: p <= i < |t| ==> t[i] == s[i + 1];
    if last == p {
      assert !SomeMarked(t);
      assert Kept(s[..p]) == s[..p];
    } else {
      assert t[last - 1] == s[last];
      assert SomeMarked(t) && LastMarked(t) == last - 1;
      KeptWithout(s, p, last);
      assert t[..last - 1] == s[..p] + s[p + 1..last];
    }
  }

  /** The entries from `next` to a3 have moved down to ad1. */
  ghost predicate Closed(was: seq<nat>, now: seq<nat>, ad1: nat, next: nat, a3: nat) {
    && 1 <= ad1 < next <= a3 + 1 <= |was| == |now|
    && (forall i :: 0 <= i < ad1 ==> now[i] == was[i])
    && forall i :: ad1 <= i <= a3 - (next - ad1) ==> now[i] == was[i + (next - ad1)]
  }

  lemma ClosedGap(was: seq<nat>, now: seq<nat>, ad1: nat, ad2: nat, dol: nat)
    requires Closed(was, now, ad1, ad2 + 1, dol)
    ensures dol < |was| == |now| && now[0] == was[0]
    ensures now[1..dol + 1 - (ad2 + 1 - ad1)] == was[1..dol + 1][..ad1 - 1] + was[1..dol + 1][ad2..]
  {
    var gap := ad2 + 1 - ad1;
    var s, t := was[1..dol + 1], now[1..dol + 1 - gap];
    forall i | 0 <= i < |t| ensures t[i] == (s[..ad1 - 1] + s[ad2..])[i] {
      assert t[i] == now[i + 1];
      assert i + 1 >= ad1 ==> now[i + 1] == was[i + 1 + gap];
    }
  }

  class Buffer {
    const zero: array<nat>    // entry 0 is no line
    var dot: nat
    var dol: nat
    var fchange: bool

    ghost predicate Valid()
      reads this, zero
    {
      dol < zero.Length && dot <= dol && !Marked(zero[0])
    }

    /** The handles of the lines; line k is entry k - 1. */
    ghost function Lines(): (s: seq<nat>)
      requires dol < zero.Length
      reads this`dol, zero
      ensures |s| == dol
    {
      zero[..][1..dol + 1]
    }

    /** `reverse`: the entries from a1 up to, but not including, a2. */
    method Reverse(a1: nat, a2: nat)
      requires 1 <= a1 <= a2 <= zero.Length
      modifies zero
      ensures forall k :: a1 <= k < a2 ==> zero[k] == old(zero[..])[a1 + a2 - 1 - k]
      ensures forall k :: 0 <= k < zero.Length && !(a1 <= k < a2) ==> zero[k] == old(zero[..])[k]
    {
      ghost var was := zero[..];
      var lo, hi := a1, a2;
      while true
        invariant a1 <= lo <= hi <= a2 && lo - a1 == a2 - hi
        invariant forall k :: 0 <= k < zero.Length && !(a1 <= k < lo) && !(hi <= k < a2) ==> zero[k] == was[k]
        invariant forall k :: a1 <= k < lo ==> zero[k] == was[a1 + a2 - 1 - k]
        invariant forall k :: hi <= k < a2 ==> zero[k] == was[a1 + a2 - 1 - k]
        decreases hi
      {
        hi := hi - 1;
        var t := zero[hi];
        if hi <= lo {
          break;
        }
        zero[hi] := zero[lo];
        zero[lo] := t;
        lo := lo + 1;
      }
    }

    method ThreeReversals(a: nat, b: nat, c: nat)
      requires 1 <= a <= b <= c <= zero.Length
      modifies zero
      ensures Exchanged(old(zero[..]), zero[..], a, b, c) && zero[0] == old(zero[0])
    {
      Reverse(a, b);
      Reverse(b, c);
      Reverse(a, c);
    }

    /** The three reversals, seen as moving lines. */
    method Exchange(a: nat, b: nat, c: nat)
      requires dol < zero.Length && 1 <= a <= b <= c <= dol + 1 && a < c
      modifies zero
      ensures Lines() == Moved(old(Lines()), b - 1, c - 1, a - 1) == Moved(old(Lines()), a - 1, b - 1, c - 1)
      ensures zero[0] == old(zero[0])
    {
      hide Exchanged, Moved;
      ghost var was := zero[..];
      ThreeReversals(a, b, c);
      ExchangedLines(was, zero[..], a - 1, b - 1, c - 1, dol);
    }

    /** The loop of `move` that takes the marks off. */
    method ClearMarks(ad1: nat, ad2: nat)
      requires dol < zero.Length && 1 <= ad1 <= ad2 <= dol
      modifies zero
      ensures Lines() == Cleared(old(Lines()), ad1 - 1, ad2) && zero[0] == old(zero[0])
    {
      ghost var was := zero[..];
      var k := ad1;
      while k <= ad2
        invariant ad1 <= k <= ad2 + 1
        invariant forall i :: 0 <= i < zero.Length ==> zero[i] == if ad1 <= i < k then Unmarked(was[i]) else was[i]
      {
        zero[k] := Unmarked(zero[k]);
        k := k + 1;
      }
    }

    /**
     * `move` without copying: lines ad1 to ad2 go behind line `adt`. Their marks are cleared,
     * the last of them becomes the current line, and the other lines keep their order.
     */
    method Move(ad1: nat, ad2: nat, adt: nat) returns (ok: bool)
      requires Valid() && 1 <= ad1 <= ad2 <= dol && adt <= dol
      modifies this`dot, this`fchange, zero
      ensures Valid() && zero[0] == old(zero[0])
      ensures ok <==> !(ad1 <= adt <= ad2)
      ensures var cleared := Cleared(old(Lines()), ad1 - 1, ad2);
        Lines() == if ok then Moved(cleared, ad1 - 1, ad2, adt) else cleared
      ensures dot == if !ok then old(dot) else MovedTo(ad1 - 1, ad2, adt) + (ad2 + 1 - ad1)
      ensures fchange == (old(fchange) || (ok && adt + 1 != ad1))
    {
      hide Moved, Cleared;
      ClearMarks(ad1, ad2);
      var to := ad2 + 1;
      if adt < ad1 {
        dot := adt + (to - ad1);
        if adt + 1 == ad1 {
          MovedNowhere(Lines(), adt, ad2);
          return true;
        }
        Exchange(adt + 1, ad1, to);
      } else if adt >= to {
        dot := adt;
        Exchange(ad1, to, adt + 1);
      } else {
        return false;
      }
      fchange := true;
      ok := true;
    }

    /**
     * `rdelete`: lines ad1 to ad2 go, and the line after them becomes current. When the last
     * line goes, the loop reads the entry behind it; when the array is full that lies beyond
     * the array, where there is `junk`, of which nothing remains.
     */
    method Rdelete(ad1: nat, ad2: nat, junk: nat) returns (beyond: bool)
      requires Valid() && 1 <= ad1 <= ad2 <= dol
      modifies this, zero
      ensures Valid() && zero[0] == old(zero[0]) && fchange
      ensures Lines() == old(Lines())[..ad1 - 1] + old(Lines())[ad2..]
      ensures dot == Min(ad1, dol)
      ensures beyond <==> ad2 == old(dol) && old(dol) + 1 == zero.Length
    {
      hide Closed;
      ghost var was := zero[..];
      beyond := CopyDown(ad1, ad2 + 1, dol, junk);
      ClosedGap(was, zero[..], ad1, ad2, dol);
      dol := dol - (ad2 + 1 - ad1);
      var a1 := ad1;
      if a1 > dol {
        a1 := dol;
      }
      dot := a1;
      fchange := true;
    }

    /** The loop of `rdelete`; it copies at least one entry. */
    method CopyDown(ad1: nat, next: nat, a3: nat, junk: nat) returns (beyond: bool)
      requires 1 <= ad1 < next <= a3 + 1 && a3 < zero.Length
      modifies zero
      ensures Closed(old(zero[..]), zero[..], ad1, next, a3)
      ensures beyond <==> next == zero.Length
    {
      ghost var was, gap := zero[..], next - ad1;
      beyond := next == zero.Length;
      var a1, a2 := ad1, next;
      var more := true;
      while more
        invariant ad1 <= a1 && a2 == a1 + gap && a2 <= if beyond then zero.Length + 1 else zero.Length
        invariant more ==> a2 < zero.Length || beyond
        invariant beyond ==> next == a3 + 1 == zero.Length
        invariant if more then a2 <= a3 || a1 == ad1 else a3 < a2
        invariant forall i :: ad1 <= i < a1 && i + gap < zero.Length ==> zero[i] == was[i + gap]
        invariant forall i :: 0 <= i < zero.Length && !(ad1 <= i < a1) ==> zero[i] == was[i]
        decreases zero.Length + 1 - a2
      {
        zero[a1] := if a2 < zero.Length then zero[a2] else junk;
        a1, a2 := a1 + 1, a2 + 1;
        more := a2 <= a3;
      }
    }

    /** The first loop of `gdelete`: the entry of the first marked line. */
    method FirstMarked() returns (a1: nat, found: bool)
      requires Valid() && dol >= 1
      ensures 1 <= a1 <= dol && (forall i :: 0 <= i < a1 - 1 ==> !Marked(Lines()[i]))
      ensures found == Marked(Lines()[a1 - 1]) == SomeMarked(Lines())
    {
      a1 := 1;
      while !Marked(zero[a1])
        invariant 1 <= a1 <= dol
        invariant forall i :: 0 <= i < a1 - 1 ==> !Marked(Lines()[i])
        decreases dol - a1
      {
        assert !Marked(Lines()[a1 - 1]);
        if a1 >= dol {
          return a1, false;
        }
        a1 := a1 + 1;
      }
      assert Marked(Lines()[a1 - 1]);
      found := true;
    }

    /** The lines before entry a2 have been closed up to end before entry a1. */
    ghost predicate Closing(s: seq<nat>, a1: nat, a2: nat, dot0: nat)
      reads this, zero
    {
      && |s| == dol < zero.Length && 1 <= a1 < a2 <= dol + 1
      && (forall i :: a2 <= i <= dol ==> zero[i] == s[i - 1])
      && SomeMarked(s[..a2 - 1]) && dot == DotSoFar(s, a2 - 1, dot0)
      && zero[1..a1] == Kept(s[..a2 - 1])
    }

    method CloseOne(a1: nat, a2: nat, ghost s: seq<nat>, ghost dot0: nat) returns (b1: nat)
      requires Closing(s, a1, a2, dot0) && a2 <= dol
      modifies this`dot, zero
      ensures Closing(s, b1, a2 + 1, dot0) && zero[0] == old(zero[0])
    {
      hide Kept, DotSoFar, SomeMarked;
      ghost var kept := Kept(s[..a2 - 1]);
      assert |kept| == a1 - 1;
      NextLine(s, a2 - 1, dot0);
      b1 := a1;
      if Marked(zero[a2]) {
        dot := b1;
      } else {
        zero[b1] := zero[a2];
        b1 := b1 + 1;
        assert zero[1..b1] == kept + [s[a2 - 1]];
      }
    }

    /** The second loop of `gdelete`, which closes up the lines behind entry `from`. */
    method CloseUp(from: nat) returns (a1: nat)
      requires Valid() && 1 <= from <= dol && Marked(Lines()[from - 1])
      requires forall i :: 0 <= i < from - 1 ==> !Marked(Lines()[i])
      modifies this`dot, zero
      ensures 1 <= a1 <= dol && zero[0] == old(zero[0]) && zero[1..a1] == Kept(old(Lines()))
      ensures SomeMarked(old(Lines())[..dol]) && dot == DotSoFar(old(Lines()), dol, old(dot))
    {
      hide Kept, DotSoFar, SomeMarked;
      ghost var s := Lines();
      a1 := from;
      var a2 := a1 + 1;
      FirstMark(s, a1 - 1, dot);
      assert Closing(s, a1, a2, dot);
      hide Closing;
      while a2 <= dol
        invariant Closing(s, a1, a2, old(dot)) && a2 <= dol + 1 && zero[0] == old(zero[0])
      {
        a1 := CloseOne(a1, a2, s, old(dot));
        a2 := a2 + 1;
      }
      ClosedUp(s, a1, a2, old(dot));
    }

    lemma ClosedUp(s: seq<nat>, a1: nat, a2: nat, dot0: nat)
      requires Closing(s, a1, a2, dot0) && a2 > dol
      ensures 1 <= a1 <= dol && zero[1..a1] == Kept(s) && SomeMarked(s[..dol]) && dot == DotSoFar(s, dol, dot0)
    {
      hide Kept;
      assert s[..a2 - 1] == s;
    }

    /**
     * `gdelete`: the marked lines go and the others stay in order. The current line is what
     * deleting them one by one makes it, unless just one line is marked: then it is not set.
     */
    method Gdelete()
      requires Valid() && dol >= 1
      modifies this, zero
      ensures Valid() && zero[0] == old(zero[0])
      ensures Lines() == Kept(old(Lines()))
      ensures dot == if OneMarked(old(Lines())) then Min(old(dot), dol) else DotAfter(old(Lines()), old(dot))
      ensures fchange == (old(fchange) || SomeMarked(old(Lines())))
    {
      ghost var s := Lines();
      var a1, found := FirstMarked();
      if !found {
        return;
      }
      a1 := CloseUp(a1);
      assert s[..dol] == s;
      dol := a1 - 1;
      if dot > dol {
        dot := dol;
      }
      fchange := true;
    }

    /** The command `d` on the marked line at entry a1. */
    method DeleteMarked(a1: nat, junk: nat)
      requires Valid() && 1 <= a1 <= dol && Marked(zero[a1])
      modifies this, zero
      ensures Valid() && zero[0] == old(zero[0]) && dot == Min(a1, dol)
      ensures Lines() == old(Lines())[..a1 - 1] + old(Lines())[a1..]
    {
      ghost var s := Lines();
      zero[a1] := Unmarked(zero[a1]);
      dot := a1;
      assert Lines()[..a1 - 1] == s[..a1 - 1] && Lines()[a1..] == s[a1..];
      var beyond := Rdelete(dot, dot, junk);
    }

    /** The general loop of `global` for the command `d`, which `gdelete` replaces. */
    method DeleteOneByOne(junk: nat)
      requires Valid()
      modifies this, zero
      ensures Valid() && zero[0] == old(zero[0])
      ensures Lines() == Kept(old(Lines())) && dot == DotAfter(old(Lines()), old(dot))
    {
      hide Kept, DotAfter, Min;
      var a1 := 0;
      while a1 <= dol
        invariant Valid() && a1 <= dol + 1 && zero[0] == old(zero[0])
        invariant forall i :: 0 <= i < a1 - 1 ==> !Marked(Lines()[i])
        invariant Kept(Lines()) == Kept(old(Lines()))
        invariant DotAfter(Lines(), dot) == DotAfter(old(Lines()), old(dot))
        decreases dol, dol + 1 - a1
      {
        if Marked(zero[a1]) {
          assert Marked(Lines()[a1 - 1]);
          DeleteFirst(Lines(), a1 - 1, dot);
          DeleteMarked(a1, junk);
          a1 := 0;
        } else {
          assert a1 >= 1 ==> !Marked(Lines()[a1 - 1]);
        }
        a1 := a1 + 1;
      }
      NothingMarked(Lines(), dot);
    }
  }
}
