/**
 * Libraries with a table of contents in bin/ld.c: `ldrand` passes over the table, and
 * `load1arg` repeats it until a pass brings no new symbols.
 */
module LinkArchive {
  import opened LinkPassOne

  /** An entry of the table of contents: the member at that offset defines the name. */
  datatype TocEntry = TocEntry(name: string, off: nat)

  type Archive = map<nat, Object>

  ghost predicate ArchiveOk(archive: Archive) {
    forall off :: off in archive ==> archive[off].Ok()
  }

  /** The name has been mentioned, but is neither defined nor a common. */
  predicate Wanted(tbl: seq<Sym>, name: string) {
    var i := Find(tbl, name);
    i < |tbl| && tbl[i].kind == Undf && tbl[i].value == 0
  }

  ghost predicate DefinedIn(archive: Archive, off: nat, name: string) {
    off in archive && exists k: nat :: Defines([archive[off]], 0, k, name)
  }

  /** The table of contents lists everything that the listed members define. */
  ghost predicate Truthful(tab: seq<TocEntry>, archive: Archive) {
    forall i, name :: 0 <= i < |tab| && DefinedIn(archive, tab[i].off, name) ==> TocEntry(name, tab[i].off) in tab
  }

  /** No name is wanted that the entry rightly promises. */
  ghost predicate Settled(tbl: seq<Sym>, archive: Archive, e: TocEntry) {
    !(Wanted(tbl, e.name) && DefinedIn(archive, e.off, e.name))
  }

  // ----- what one call of load1 does to the wanted names

  /** If no entry was added, whatever is wanted afterwards was wanted before. */
  lemma {:induction false} WantedBefore(a: seq<Sym>, b: seq<Sym>, def: bool, objs: seq<Object>, name: string)
    requires Distinct(a) && Follows(a, b, def) && |a| == |b| && AllSizesKnown(a, objs) && Wanted(b, name)
    ensures Wanted(a, name)
  {
    var i := Find(b, name);
    assert SizeKnown(objs, a[i]);
  }

  /** After all symbols of a member are merged, none of the names that it defines is wanted. */
  lemma {:induction false} MemberSatisfies(tbl: seq<Sym>, loaded: seq<Object>, seen: seq<Object>, o: Object,
    name: string, k: nat)
    requires PassOneOk(tbl, loaded, seen) && o.Ok() && Defines([o], 0, k, name)
    ensures var m := |loaded|;
      var (t, n) := MergeFirst(tbl, o, |o.syms|, TextBefore(loaded, m), DataBefore(loaded, m), BssBefore(loaded, m));
      !Wanted(t, name) && (n == 0 ==> !Wanted(t[..|tbl|], name))
  {
    MidwayAt(tbl, loaded, seen, o, |o.syms|);
    var m := |loaded|;
    var (t, n) := MergeFirst(tbl, o, |o.syms|, TextBefore(loaded, m), DataBefore(loaded, m), BssBefore(loaded, m));
    assert Satisfied(t, name);
    var cut := t[..|tbl|];
    if Wanted(cut, name) {
      FindSame(cut, t, name);
    }
  }

  // ----- termination: the names are finitely many

  ghost function Names(tbl: seq<Sym>): set<string> {
    set i | 0 <= i < |tbl| :: tbl[i].name
  }

  ghost function NamesOf(o: Object): set<string> {
    set k | 0 <= k < |o.syms| :: o.syms[k].name
  }

  ghost function AllNames(archive: Archive): set<string> {
    set off, k | off in archive && 0 <= k < |archive[off].syms| :: archive[off].syms[k].name
  }

  lemma {:induction false} NamesCounted(tbl: seq<Sym>)
    requires Distinct(tbl)
    ensures |Names(tbl)| == |tbl|
  {
    if tbl == [] {
      assert Names(tbl) == {};
    } else {
      var front := tbl[..|tbl| - 1];
      NamesCounted(front);
      assert Names(tbl) == Names(front) + {tbl[|tbl| - 1].name};
    }
  }

  lemma {:induction false} MergedNames(tbl: seq<Sym>, o: Object, k: nat, t: int, d: int, b: int)
    requires k <= |o.syms|
    ensures Names(MergeFirst(tbl, o, k, t, d, b).0) <= Names(tbl) + NamesOf(o)
  {
    if k > 0 {
      MergedNames(tbl, o, k - 1, t, d, b);
      var before := MergeFirst(tbl, o, k - 1, t, d, b).0;
      if o.syms[k - 1].ext {
        var s := Relocated(o, o.syms[k - 1], t, d, b);
        forall name | name in Names(Merge(before, s).0)
          ensures name in Names(before) || name == s.name
        {
          var i :| 0 <= i < |Merge(before, s).0| && Merge(before, s).0[i].name == name;
          MergeEntries(before, s, i);
        }
      }
    }
  }

  lemma {:induction false} SubsetSmaller<T>(a: set<T>, b: set<T>)
    requires a <= b
    ensures |a| <= |b|
  {
    if a != {} {
      var x :| x in a;
      SubsetSmaller(a - {x}, b - {x});
    }
  }

  // ----- what backing out a member does not undo

  /** Symbol j asks for a bigger common than the table has for the name so far. */
  predicate AsksForMore(tbl: seq<Sym>, o: Object, j: nat)
    requires j < |o.syms|
  {
    var i := Find(tbl, o.syms[j].name);
    o.syms[j].ext && o.syms[j].kind == Undf && i < |tbl| && tbl[i].kind == Undf && o.syms[j].value > tbl[i].value
  }

  lemma {:induction false} MergeFirstFollows(tbl: seq<Sym>, o: Object, k: nat, t: int, d: int, b: int)
    requires Distinct(tbl) && k <= |o.syms|
    ensures var (after, n) := MergeFirst(tbl, o, k, t, d, b); Distinct(after) && Follows(tbl, after, n != 0)
  {
    if k > 0 {
      MergeFirstFollows(tbl, o, k - 1, t, d, b);
      var before := MergeFirst(tbl, o, k - 1, t, d, b).0;
      if o.syms[k - 1].ext {
        MergeFollows(before, Relocated(o, o.syms[k - 1], t, d, b));
      }
    }
  }

  lemma {:induction false} MergeUndoable(tbl: seq<Sym>, before: seq<Sym>, s: ObjSym)
    requires Distinct(tbl) && Distinct(before) && |tbl| <= |before| && before[..|tbl|] == tbl && !Merge(before, s).1
    ensures var i := Find(tbl, s.name);
      Merge(before, s).0[..|tbl|] == tbl <==>
      !(s.kind == Undf && i < |tbl| && tbl[i].kind == Undf && s.value > tbl[i].value)
  {
    var i := Find(tbl, s.name);
    if i < |tbl| {
      FindSame(tbl, before, s.name);
    } else {
      assert forall j :: 0 <= j < |tbl| ==> before[j] == tbl[j];
    }
    assert i < |tbl| && Merge(before, s).0[..|tbl|] == tbl ==> Merge(before, s).0[i] == tbl[i];
  }

  lemma {:induction false} ChangedStaysChanged(tbl: seq<Sym>, a: seq<Sym>, b: seq<Sym>)
    requires Follows(tbl, a, false) && Follows(a, b, false) && b[..|tbl|] == tbl
    ensures a[..|tbl|] == tbl
  {
    forall i | 0 <= i < |tbl|
      ensures a[i] == tbl[i]
    {
      assert b[i] == b[..|tbl|][i] == tbl[i];
    }
  }

  /**
   * `symfree` cuts the table back, but a size that has grown stays. So backing a member out
   * restores the table exactly when the member asks for no bigger common than is there.
   */
  lemma {:induction false} BackedOutUnchanged(tbl: seq<Sym>, o: Object, k: nat, t: int, d: int, b: int)
    requires Distinct(tbl) && k <= |o.syms| && MergeFirst(tbl, o, k, t, d, b).1 == 0
    ensures |tbl| <= |MergeFirst(tbl, o, k, t, d, b).0|
    ensures MergeFirst(tbl, o, k, t, d, b).0[..|tbl|] == tbl <==> forall j :: 0 <= j < k ==> !AsksForMore(tbl, o, j)
  {
    hide Merge, Distinct, Follows;
    if k > 0 {
      BackedOutUnchanged(tbl, o, k - 1, t, d, b);
      MergeFirstFollows(tbl, o, k - 1, t, d, b);
      var before := MergeFirst(tbl, o, k - 1, t, d, b).0;
      if !o.syms[k - 1].ext {
        assert !AsksForMore(tbl, o, k - 1);
      } else {
        var s := Relocated(o, o.syms[k - 1], t, d, b);
        MergeFollows(before, s);
        if before[..|tbl|] == tbl {
          MergeUndoable(tbl, before, s);
          assert AsksForMore(tbl, o, k - 1) <==> !(Merge(before, s).0[..|tbl|] == tbl);
        } else if Merge(before, s).0[..|tbl|] == tbl {
          ChangedStaysChanged(tbl, before, Merge(before, s).0);
        }
      }
    }
  }

  /**
   * With `nextsym` as it may be: backing out an object that defines nothing wanted restores the
   * table if and only if the object asks for no bigger common and `nextsym` is not stale. It
   * becomes stale when the first external symbols of a link are backed out.
   */
  lemma {:induction false} BackingOutRestores(st: State, o: Object)
    requires st.Ok() && o.syms != [] && Merged(st, o).1 == 0
    ensures var now := LoadOne(st, o, true);
      && (now.fate.Fine? && now.table == st.table <==>
            !st.Stale() && forall j :: 0 <= j < |o.syms| ==> !AsksForMore(st.table, o, j))
      && (now.fate.Fine? ==> (now.Stale() <==> st.nextsym.Null? && Merged(st, o).0 != []))
  {
    hide PassOneOk, MergeFirst;
    StateFacts(st);
    BackedOutUnchanged(st.table, o, |o.syms|, st.tsize, st.dsize, st.bsize);
  }

  /** A common of 4 bytes becomes one of 8 through a member that is not loaded. */
  lemma {:induction false} GrownByUseless(name: string)
    ensures var tbl, o := [Sym(name, Undf, 4)], Object([], 0, [], 0, [ObjSym(name, true, Undf, 8)], [], []);
      && MergeFirst(tbl, o, 1, 0, 0, 0) == ([Sym(name, Undf, 8)], 0) && AsksForMore(tbl, o, 0)
  {
    var tbl, o := [Sym(name, Undf, 4)], Object([], 0, [], 0, [ObjSym(name, true, Undf, 8)], [], []);
    assert Find(tbl, name) == 0;
    OnlySymbol(tbl, o, 0, 0, 0);
    assert tbl[0 := Sym(name, Undf, 8)] == [Sym(name, Undf, 8)];
  }

  // ----- what a pass over the table of contents is

  /** `step` on the member at an offset; beyond the end of the archive there is nothing. */
  function StepState(st: State, archive: Archive, off: nat): State {
    if off in archive then LoadOne(st, archive[off], true) else st
  }

  /** Past the entries from tp on that are for the same member. */
  function Skip(tab: seq<TocEntry>, tp: nat, off: nat): (n: nat)
    requires tp <= |tab|
    ensures tp <= n <= |tab|
    decreases |tab| - tp
  {
    if tp < |tab| && tab[tp].off == off then Skip(tab, tp + 1, off) else tp
  }

  /** `ldrand` from entry tp on: a member is tried when the name of its entry is still undefined. */
  function PassFrom(st: State, tab: seq<TocEntry>, archive: Archive, tp: nat): State
    requires tp <= |tab|
    decreases |tab| - tp
  {
    if tp == |tab| then st
    else
      var sp := Find(st.table, tab[tp].name);
      if sp == |st.table| || st.table[sp].kind != Undf then PassFrom(st, tab, archive, tp + 1)
      else PassFrom(StepState(st, archive, tab[tp].off), tab, archive, Skip(tab, tp + 1, tab[tp].off))
  }

  function Passes(st: State, tab: seq<TocEntry>, archive: Archive, n: nat): State {
    if n == 0 then st else PassFrom(Passes(st, tab, archive, n - 1), tab, archive, 0)
  }

  /** The k-th pass brought new symbols. */
  predicate Grew(st: State, tab: seq<TocEntry>, archive: Archive, k: nat)
    requires k >= 1
  {
    |Passes(st, tab, archive, k).table| != |Passes(st, tab, archive, k - 1).table|
  }

  /** Passes as long as they bring new symbols, and one more; but ld gives up if `nextsym` is stale. */
  ghost predicate Searched(st: State, tab: seq<TocEntry>, archive: Archive, after: State) {
    if st.Stale() then after == st.(fate := Botch)
    else exists n: nat :: Settles(st, tab, archive, n) && after == Passes(st, tab, archive, n)
  }

  ghost predicate Settles(st: State, tab: seq<TocEntry>, archive: Archive, n: nat) {
    n >= 1 && !Grew(st, tab, archive, n) && forall k: nat :: 1 <= k < n ==> Grew(st, tab, archive, k)
  }

  /** So there is only one way in which a library is searched. */
  lemma SearchedOnce(st: State, tab: seq<TocEntry>, archive: Archive, a: State, b: State)
    requires Searched(st, tab, archive, a) && Searched(st, tab, archive, b)
    ensures a == b
  {
    hide Passes, Grew;
    if !st.Stale() {
      var n: nat :| Settles(st, tab, archive, n) && a == Passes(st, tab, archive, n);
      var m: nat :| Settles(st, tab, archive, m) && b == Passes(st, tab, archive, m);
      assert n >= m && m >= n;
    }
  }

  // ----- ldrand

  /** More objects have been loaded, all of them members of the archive. */
  ghost predicate LoadedFrom(before: seq<Object>, after: seq<Object>, archive: Archive) {
    && before <= after
    && forall m :: |before| <= m < |after| ==> after[m] in archive.Values
  }

  /** What trying a member does to the names in the table and to those that are wanted. */
  lemma {:induction false} StepSettles(st: State, archive: Archive, off: nat)
    requires st.Ok() && st.table != [] && ArchiveOk(archive)
    ensures var now := StepState(st, archive, off);
      && now.Ok() && now.table != [] && |st.table| <= |now.table|
      && LoadedFrom(st.loaded, now.loaded, archive)
      && Names(now.table) <= Names(st.table) + AllNames(archive)
      && (forall name :: DefinedIn(archive, off, name) ==> !Wanted(now.table, name))
      && (|now.table| == |st.table| ==> forall name :: Wanted(now.table, name) ==> Wanted(st.table, name))
  {
    if off in archive {
      var o := archive[off];
      var now, m := StepState(st, archive, off), Merged(st, o);
      FineUnlessStale(st, o, true);
      LoadOneKeeps(st, o, true);
      MidwayAt(st.table, st.loaded, st.seen, o, |o.syms|);
      RejectKeeps(st.table, st.loaded, st.seen, o);
      MergedNames(st.table, o, |o.syms|, st.tsize, st.dsize, st.bsize);
      StepTable(st, o);
      forall name | DefinedIn(archive, off, name) ensures !Wanted(now.table, name) {
        var k: nat :| Defines([o], 0, k, name);
        MemberSatisfies(st.table, st.loaded, st.seen, o, name, k);
      }
      forall name | |now.table| == |st.table| && Wanted(now.table, name) ensures Wanted(st.table, name) {
        WantedBefore(st.table, now.table, m.1 != 0, st.seen, name);
      }
      assert o in archive.Values && NamesOf(o) <= AllNames(archive);
    }
  }

  lemma StepTable(st: State, o: Object)
    requires st.Ok() && st.table != []
    ensures var now, m := LoadOne(st, o, true), Merged(st, o);
      && now.table == (if o.syms != [] && m.1 != 0 then m.0 else m.0[..|st.table|])
      && now.loaded == (if o.syms != [] && m.1 != 0 then st.loaded + [o] else st.loaded)
  {
    hide PassOneOk;
  }

  method Step(lk: Linker, archive: Archive, off: nat)
    requires lk.S().Ok() && lk.table != [] && ArchiveOk(archive)
    modifies lk
    ensures lk.S() == StepState(old(lk.S()), archive, off)
  {
    if off in archive {
      StepSettles(lk.S(), archive, off);
      var used := lk.Load1(archive[off], true);
    }
  }

  /** What is settled stays settled when no symbol is added. */
  ghost predicate StillSettled(before: seq<Sym>, after: seq<Sym>, archive: Archive) {
    |after| == |before| ==> forall e: TocEntry :: Settled(before, archive, e) ==> Settled(after, archive, e)
  }

  /** The body of the loop of `ldrand`. */
  method TryEntry(lk: Linker, tab: seq<TocEntry>, archive: Archive, tp: nat) returns (next: nat)
    requires lk.S().Ok() && !lk.S().Stale() && ArchiveOk(archive) && tp < |tab|
    modifies lk
    ensures tp < next <= |tab| && PassFrom(lk.S(), tab, archive, next) == PassFrom(old(lk.S()), tab, archive, tp)
    ensures lk.S().Ok() && !lk.S().Stale() && |old(lk.table)| <= |lk.table|
    ensures LoadedFrom(old(lk.loaded), lk.loaded, archive)
    ensures Names(lk.table) <= Names(old(lk.table)) + AllNames(archive)
    ensures StillSettled(old(lk.table), lk.table, archive)
    ensures |lk.table| == |old(lk.table)| ==> forall i :: tp <= i < next ==> Settled(lk.table, archive, tab[i])
  {
    hide PassOneOk, Names, AllNames, LoadOne, State.Ok, StepState;
    var sp := Find(lk.table, tab[tp].name);
    if sp == |lk.table| || lk.table[sp].kind != Undf {
      return tp + 1;
    }
    StepSettles(lk.S(), archive, tab[tp].off);
    StateFacts(StepState(lk.S(), archive, tab[tp].off));
    Step(lk, archive, tab[tp].off);
    next := SkipSame(tab, tp + 1, tab[tp].off);
    assert forall i :: tp <= i < next ==> tab[i].off == tab[tp].off;
  }

  /** The inner loop of `ldrand`. */
  method SkipSame(tab: seq<TocEntry>, from: nat, loc: nat) returns (tp: nat)
    requires from <= |tab|
    ensures tp == Skip(tab, from, loc) && forall i :: from <= i < tp ==> tab[i].off == loc
  {
    tp := from;
    while tp < |tab| && tab[tp].off == loc
      invariant from <= tp <= |tab| && Skip(tab, from, loc) == Skip(tab, tp, loc)
      invariant forall i :: from <= i < tp ==> tab[i].off == loc
    {
      tp := tp + 1;
    }
  }

  /** `ldrand`: one pass; says whether the number of symbols has changed. */
  method Ldrand(lk: Linker, tab: seq<TocEntry>, archive: Archive) returns (more: bool)
    requires lk.S().Ok() && !lk.S().Stale() && ArchiveOk(archive)
    modifies lk
    ensures lk.S() == PassFrom(old(lk.S()), tab, archive, 0)
    ensures lk.S().Ok() && !lk.S().Stale() && |old(lk.table)| <= |lk.table|
    ensures LoadedFrom(old(lk.loaded), lk.loaded, archive)
    ensures more <==> |old(lk.table)| < |lk.table|
    ensures Names(lk.table) <= Names(old(lk.table)) + AllNames(archive)
    ensures !more ==> forall i :: 0 <= i < |tab| ==> Settled(lk.table, archive, tab[i])
  {
    hide PassOneOk, Names, AllNames, State.Ok, PassFrom, Settled;
    var nsymt := |lk.table|;
    var tp := 0;
    while tp < |tab|
      invariant 0 <= tp <= |tab| && PassFrom(lk.S(), tab, archive, tp) == PassFrom(old(lk.S()), tab, archive, 0)
      invariant lk.S().Ok() && !lk.S().Stale() && nsymt <= |lk.table|
      invariant LoadedFrom(old(lk.loaded), lk.loaded, archive)
      invariant Names(lk.table) <= Names(old(lk.table)) + AllNames(archive)
      invariant |lk.table| == nsymt ==> forall i :: 0 <= i < tp ==> Settled(lk.table, archive, tab[i])
    {
      tp := TryEntry(lk, tab, archive, tp);
    }
    NothingLeft(lk.S(), tab, archive);
    more := |lk.table| != nsymt;
  }

  lemma NothingLeft(st: State, tab: seq<TocEntry>, archive: Archive)
    ensures PassFrom(st, tab, archive, |tab|) == st
  {
  }

  /**
   * The loop of `load1arg`: it ends, and then nothing is wanted that a listed member defines;
   * but if `nextsym` is stale, ld gives up.
   */
  method SearchLibrary(lk: Linker, tab: seq<TocEntry>, archive: Archive)
    requires lk.S().Ok() && ArchiveOk(archive)
    modifies lk
    ensures Searched(old(lk.S()), tab, archive, lk.S())
    ensures lk.fate.Fine? <==> !old(lk.S()).Stale()
    ensures lk.fate.Fine? ==> lk.S().Ok() && LoadedFrom(old(lk.loaded), lk.loaded, archive)
    ensures lk.fate.Fine? ==> |old(lk.table)| <= |lk.table|
    ensures lk.fate.Fine? && Truthful(tab, archive) ==>
      forall i, name :: 0 <= i < |tab| && DefinedIn(archive, tab[i].off, name) ==> !Wanted(lk.table, name)
  {
    hide PassOneOk, Names, AllNames, State.Ok, PassFrom;
    ghost var st := lk.S();
    StateFacts(st);
    if lk.nextsym.Past? && lk.nextsym.n != |lk.table| {
      lk.fate := Botch;
      return;
    }
    ghost var universe := Names(lk.table) + AllNames(archive);
    NamesCounted(lk.table);
    SubsetSmaller(Names(lk.table), universe);
    var more := true;
    ghost var n: nat := 0;
    while more
      invariant lk.S().Ok() && !lk.S().Stale() && Names(lk.table) <= universe
      invariant lk.S() == Passes(st, tab, archive, n) && (forall k: nat :: 1 <= k < n ==> Grew(st, tab, archive, k))
      invariant if more then n == 0 || Grew(st, tab, archive, n) else n >= 1 && !Grew(st, tab, archive, n)
      invariant |st.table| <= |lk.table| <= |universe| && LoadedFrom(st.loaded, lk.loaded, archive)
      invariant !more ==> forall i :: 0 <= i < |tab| ==> Settled(lk.table, archive, tab[i])
      decreases |universe| - |lk.table|, more
    {
      more := Ldrand(lk, tab, archive);
      n := n + 1;
      StateFacts(lk.S());
      NamesCounted(lk.table);
      SubsetSmaller(Names(lk.table), universe);
    }
    StateFacts(lk.S());
    assert Settles(st, tab, archive, n);
    forall i, name | Truthful(tab, archive) && 0 <= i < |tab| && DefinedIn(archive, tab[i].off, name)
      ensures !Wanted(lk.table, name)
    {
      var j :| 0 <= j < |tab| && tab[j] == TocEntry(name, tab[i].off);
      assert Settled(lk.table, archive, tab[j]);
    }
  }
}
