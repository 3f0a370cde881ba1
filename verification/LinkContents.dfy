/**
 * When bin/ld.c is done with a library that has a table of contents: none of the members that
 * are listed for a name still undefined, or common, would be of use any more.
 */
module LinkContents {
  import opened LinkPassOne
  import opened LinkArchive
  import opened Linking
  import opened LinkHistory

  /** The same names; what is undefined in b is so in a, and no larger there. */
  ghost predicate Fewer(a: seq<Sym>, b: seq<Sym>) {
    && |a| == |b|
    && forall i :: 0 <= i < |a| ==>
      a[i].name == b[i].name && (b[i].kind == Undf ==> a[i].kind == Undf && 0 <= a[i].value <= b[i].value)
  }

  /** What counts as a definition for b counts for a. */
  lemma {:induction false} MergeFewer(a: seq<Sym>, b: seq<Sym>, s: ObjSym, s': ObjSym)
    requires Fewer(a, b) && s.name == s'.name && s.kind == s'.kind
    requires s.kind == Undf ==> 0 <= s.value == s'.value
    requires !Merge(a, s).1
    ensures !Merge(b, s').1 && Fewer(Merge(a, s).0, Merge(b, s').0)
  {
    FindAlike(a, b, s.name);
  }

  lemma {:induction false} MergeFirstFewer(a: seq<Sym>, b: seq<Sym>, o: Object, k: nat, t: int, d: int, c: int, t': int,
    d': int, c': int)
    requires Fewer(a, b) && o.Ok() && k <= |o.syms| && MergeFirst(a, o, k, t, d, c).1 == 0
    ensures MergeFirst(b, o, k, t', d', c').1 == 0
    ensures Fewer(MergeFirst(a, o, k, t, d, c).0, MergeFirst(b, o, k, t', d', c').0)
  {
    hide Merge, Fewer;
    if k > 0 {
      MergeFirstFewer(a, b, o, k - 1, t, d, c, t', d', c');
      if o.syms[k - 1].ext {
        MergeFewer(MergeFirst(a, o, k - 1, t, d, c).0, MergeFirst(b, o, k - 1, t', d', c').0,
                   Relocated(o, o.syms[k - 1], t, d, c), Relocated(o, o.syms[k - 1], t', d', c'));
      }
    }
  }

  // ----- an object that has been merged has nothing more to give

  /** The symbol cannot count any more. */
  ghost predicate Spent(t: seq<Sym>, s: ObjSym) {
    var i := Find(t, s.name);
    i < |t| && (t[i].kind != Undf || s.kind == Undf || (t[i].value > 0 && s.kind == Text))
  }

  ghost predicate Sizes(t: seq<Sym>) {
    forall i :: 0 <= i < |t| && t[i].kind == Undf ==> t[i].value >= 0
  }

  lemma {:induction false} MergeSpends(t: seq<Sym>, s: ObjSym)
    requires Distinct(t) && Sizes(t) && (s.kind == Undf ==> s.value >= 0)
    ensures var now := Merge(t, s).0; Distinct(now) && Sizes(now) && Spent(now, s)
  {
    MergeAt(t, s, s.name);
  }

  lemma {:induction false} StaysSpent(t: seq<Sym>, now: seq<Sym>, def: bool, s: ObjSym)
    requires Distinct(t) && Distinct(now) && Follows(t, now, def) && Spent(t, s)
    ensures Spent(now, s)
  {
    FindSame(t, now, s.name);
  }

  lemma {:induction false} AllSpent(tbl: seq<Sym>, o: Object, k: nat, t: int, d: int, b: int)
    requires Distinct(tbl) && Sizes(tbl) && o.Ok() && k <= |o.syms|
    ensures var now := MergeFirst(tbl, o, k, t, d, b).0;
      && Distinct(now) && Sizes(now)
      && forall j :: 0 <= j < k && o.syms[j].ext ==> Spent(now, o.syms[j])
  {
    hide Merge, Distinct, Sizes, Spent, Follows;
    if k > 0 {
      AllSpent(tbl, o, k - 1, t, d, b);
      var before := MergeFirst(tbl, o, k - 1, t, d, b).0;
      var s := Relocated(o, o.syms[k - 1], t, d, b);
      if s.ext {
        MergeSpends(before, s);
        MergeFollows(before, s);
        SpentAnywhere(Merge(before, s).0, o.syms[k - 1], s);
        forall j | 0 <= j < k - 1 && o.syms[j].ext
          ensures Spent(Merge(before, s).0, o.syms[j])
        {
          StaysSpent(before, Merge(before, s).0, Merge(before, s).1, o.syms[j]);
        }
      }
    }
  }

  lemma SpentAnywhere(t: seq<Sym>, s: ObjSym, s': ObjSym)
    requires s.name == s'.name && s.kind == s'.kind
    ensures Spent(t, s) <==> Spent(t, s')
  {
  }

  lemma {:induction false} SpentDoesNotCount(t: seq<Sym>, s: ObjSym)
    requires Distinct(t) && Spent(t, s)
    ensures !Merge(t, s).1
  {
  }

  lemma {:induction false} NothingToGive(tbl: seq<Sym>, o: Object, k: nat, t: int, d: int, b: int)
    requires Distinct(tbl) && o.Ok() && k <= |o.syms|
    requires forall j :: 0 <= j < k && o.syms[j].ext ==> Spent(tbl, o.syms[j])
    ensures MergeFirst(tbl, o, k, t, d, b).1 == 0
    ensures Distinct(MergeFirst(tbl, o, k, t, d, b).0)
  {
    hide Merge, Distinct, Spent;
    if k > 0 {
      NothingToGive(tbl, o, k - 1, t, d, b);
      MergeFirstFollows(tbl, o, k - 1, t, d, b);
      var before := MergeFirst(tbl, o, k - 1, t, d, b).0;
      var s := Relocated(o, o.syms[k - 1], t, d, b);
      if s.ext {
        StaysSpent(tbl, before, false, o.syms[k - 1]);
        SpentAnywhere(before, o.syms[k - 1], s);
        SpentDoesNotCount(before, s);
        MergeFollows(before, s);
      }
    }
  }

  // ----- a pass over the contents

  /** If the name of the entry is not defined, its member has nothing to give. */
  ghost predicate NoGain(tbl: seq<Sym>, archive: Archive, e: TocEntry) {
    var i := Find(tbl, e.name);
    i < |tbl| && tbl[i].kind == Undf && e.off in archive ==>
      MergeFirst(tbl, archive[e.off], |archive[e.off].syms|, 0, 0, 0).1 == 0
  }

  lemma {:induction false} OkSizes(st: State)
    requires st.Ok()
    ensures Distinct(st.table) && Sizes(st.table)
  {
    forall i | 0 <= i < |st.table| && st.table[i].kind == Undf
      ensures st.table[i].value >= 0
    {
      assert SizeKnown(st.seen, st.table[i]);
    }
  }

  lemma {:induction false} FollowsIsFewer(a: seq<Sym>, b: seq<Sym>, def: bool)
    requires Follows(a, b, def) && |a| == |b| && Sizes(a)
    ensures Fewer(a, b)
  {
  }

  lemma {:induction false} FewerTwice(a: seq<Sym>, b: seq<Sym>, c: seq<Sym>)
    requires Fewer(a, b) && Fewer(b, c)
    ensures Fewer(a, c)
  {
  }

  /** Trying a member leaves it with nothing to give, if no name was added. */
  lemma {:induction false} TriedGivesNothing(st: State, archive: Archive, off: nat)
    requires st.Ok() && !st.Stale() && st.table != [] && ArchiveOk(archive)
    ensures var now := StepState(st, archive, off);
      && now.Ok() && !now.Stale() && now.table != [] && |st.table| <= |now.table|
      && (|now.table| == |st.table| ==> Fewer(st.table, now.table))
      && (|now.table| == |st.table| && off in archive ==>
            MergeFirst(now.table, archive[off], |archive[off].syms|, 0, 0, 0).1 == 0)
  {
    hide PassOneOk, State.Ok, MergeFirst, Names, AllNames, Fewer, Spent, Sizes, Follows;
    StepSettles(st, archive, off);
    var now := StepState(st, archive, off);
    StateFacts(now);
    OkSizes(st);
    if off in archive {
      var o := archive[off];
      var n := |o.syms|;
      StepTable(st, o);
      MergeFirstFollows(st.table, o, n, st.tsize, st.dsize, st.bsize);
      var m := Merged(st, o);
      CutFollows(st.table, m.0, m.1 != 0);
      if |now.table| == |st.table| {
        FollowsIsFewer(st.table, now.table, m.1 != 0);
        if o.syms != [] && m.1 != 0 {
          AllSpent(st.table, o, n, st.tsize, st.dsize, st.bsize);
          NothingToGive(now.table, o, n, 0, 0, 0);
        } else if o.syms == [] {
          NoSymbols(now.table, o);
        } else {
          MergeFirstFewer(st.table, now.table, o, n, st.tsize, st.dsize, st.bsize, 0, 0, 0);
        }
      }
    } else {
      FollowsIsFewer(st.table, st.table, false) by {
        FollowsItself(st.table);
      }
    }
  }

  lemma FollowsItself(t: seq<Sym>)
    ensures Follows(t, t, false)
  {
  }

  lemma NoSymbols(t: seq<Sym>, o: Object)
    requires o.syms == []
    ensures MergeFirst(t, o, 0, 0, 0, 0).1 == 0
  {
  }

  lemma {:induction false} CutFollows(a: seq<Sym>, b: seq<Sym>, def: bool)
    requires Follows(a, b, def)
    ensures |a| <= |b| && Follows(a, b[..|a|], def)
  {
  }

  /** With a table of no larger sizes the member still has nothing to give. */
  lemma {:induction false} StillNothing(a: seq<Sym>, b: seq<Sym>, o: Object)
    requires Fewer(a, b) && o.Ok() && MergeFirst(a, o, |o.syms|, 0, 0, 0).1 == 0
    ensures MergeFirst(b, o, |o.syms|, 0, 0, 0).1 == 0
  {
    MergeFirstFewer(a, b, o, |o.syms|, 0, 0, 0, 0, 0, 0);
  }

  /** What is defined, or unknown, stays so while no name is added. */
  lemma {:induction false} PassedOver(a: seq<Sym>, b: seq<Sym>, archive: Archive, e: TocEntry)
    requires Fewer(a, b) && (Find(a, e.name) == |a| || a[Find(a, e.name)].kind != Undf)
    ensures NoGain(b, archive, e)
  {
    FindAlike(a, b, e.name);
  }

  /** A pass that adds no name leaves nothing to gain from the entries it has gone over. */
  lemma {:induction false} PassLeavesNothing(st: State, tab: seq<TocEntry>, archive: Archive, tp: nat)
    requires st.Ok() && !st.Stale() && ArchiveOk(archive) && tp <= |tab|
    ensures var after := PassFrom(st, tab, archive, tp);
      && after.Ok() && !after.Stale() && |st.table| <= |after.table|
      && (|after.table| == |st.table| ==>
            Fewer(st.table, after.table) && forall i :: tp <= i < |tab| ==> NoGain(after.table, archive, tab[i]))
    decreases |tab| - tp
  {
    hide PassOneOk, State.Ok, LoadOne, Fewer, NoGain, Sizes, Follows, StepState, State.Stale;
    var after := PassFrom(st, tab, archive, tp);
    if tp == |tab| {
      OkSizes(st);
      FollowsItself(st.table);
      FollowsIsFewer(st.table, st.table, false);
    } else {
      var off := tab[tp].off;
      var sp := Find(st.table, tab[tp].name);
      if sp == |st.table| || st.table[sp].kind != Undf {
        PassLeavesNothing(st, tab, archive, tp + 1);
        if |after.table| == |st.table| {
          PassedOver(st.table, after.table, archive, tab[tp]);
        }
      } else {
        TriedGivesNothing(st, archive, off);
        var now, next := StepState(st, archive, off), Skip(tab, tp + 1, off);
        PassLeavesNothing(now, tab, archive, next);
        if |after.table| == |st.table| {
          FewerTwice(st.table, now.table, after.table);
          if off in archive {
            StillNothing(now.table, after.table, archive[off]);
          }
          SkippedAlike(tab, tp + 1, off);
          forall i | tp <= i < |tab|
            ensures NoGain(after.table, archive, tab[i])
          {
            if i < next {
              GivesNothing(after.table, archive, tab[i]);
            }
          }
        }
      }
    }
  }

  lemma GivesNothing(t: seq<Sym>, archive: Archive, e: TocEntry)
    requires e.off in archive ==> MergeFirst(t, archive[e.off], |archive[e.off].syms|, 0, 0, 0).1 == 0
    ensures NoGain(t, archive, e)
  {
  }

  lemma {:induction false} SkippedAlike(tab: seq<TocEntry>, tp: nat, off: nat)
    requires tp <= |tab|
    ensures forall i :: tp <= i < Skip(tab, tp, off) ==> tab[i].off == off
    decreases |tab| - tp
  {
    if tp < |tab| && tab[tp].off == off {
      SkippedAlike(tab, tp + 1, off);
    }
  }

  lemma {:induction false} PassesKeepOk(st: State, tab: seq<TocEntry>, archive: Archive, n: nat)
    requires st.Ok() && !st.Stale() && ArchiveOk(archive)
    ensures Passes(st, tab, archive, n).Ok() && !Passes(st, tab, archive, n).Stale()
  {
    hide State.Ok, PassFrom, NoGain, Fewer, State.Stale;
    if n > 0 {
      PassesKeepOk(st, tab, archive, n - 1);
      PassLeavesNothing(Passes(st, tab, archive, n - 1), tab, archive, 0);
    }
  }

  lemma OnePassMore(st: State, tab: seq<TocEntry>, archive: Archive, n: nat)
    requires n >= 1
    ensures Passes(st, tab, archive, n) == PassFrom(Passes(st, tab, archive, n - 1), tab, archive, 0)
  {
    hide PassFrom;
  }

  /**
   * When a library has been searched, every listed member whose entry names a symbol that is
   * undefined, or common, would add no definition.
   */
  lemma {:induction false} NothingMoreToLoad(st: State, tab: seq<TocEntry>, archive: Archive, after: State)
    requires st.Ok() && !st.Stale() && ArchiveOk(archive) && Searched(st, tab, archive, after)
    ensures forall i :: 0 <= i < |tab| ==> NoGain(after.table, archive, tab[i])
  {
    hide State.Ok, PassFrom, NoGain, Fewer, State.Stale, Passes;
    var n: nat :| Settles(st, tab, archive, n) && after == Passes(st, tab, archive, n);
    var before := Passes(st, tab, archive, n - 1);
    PassesKeepOk(st, tab, archive, n - 1);
    PassLeavesNothing(before, tab, archive, 0);
    OnePassMore(st, tab, archive, n);
    assert !Grew(st, tab, archive, n);
  }

  // ----- a file by itself

  /** An object defines something of its own if and only if a definition in it counts after what comes before. */
  lemma {:induction false} OwnDefinition(o: Object)
    requires o.Ok()
    ensures DefinesItsOwn(o) <==> Useful(HistoryOf([]), o)
  {
    NothingHeard();
    CountedIn(HistoryOf([]), [], o, |o.syms|);
    assert TextBefore([], 0) == DataBefore([], 0) == BssBefore([], 0) == 0;
  }
}
