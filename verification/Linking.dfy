/**
 * The whole of a link in bin/ld.c: pass 1 over the arguments, `middle`, and pass 2 over the
 * same objects again.
 */
module Linking {
  import opened LinkPassOne
  import opened LinkMiddle
  import opened LinkPassTwo
  import opened LinkRelocate
  import opened LinkArchive
  import Numbers

  // ----- what is to be linked

  ghost predicate ObjectOk(o: Object) {
    o.Ok() && WithinCode(o.treloc, o.text) && WithinCode(o.dreloc, o.data)
  }

  ghost predicate AllOk(objs: seq<Object>) {
    forall j :: 0 <= j < |objs| ==> ObjectOk(objs[j])
  }

  /** A file, a library with a table of contents, one without, or a name after `-u` or `-e`. */
  datatype Arg =
    | File(o: Object)
    | Library(tab: seq<TocEntry>, archive: Archive)
    | Members(members: seq<Object>)
    | Want(name: string)
  {
    ghost predicate Ok() {
      match this
      case File(o) => ObjectOk(o)
      case Library(_, archive) => forall o :: o in archive.Values ==> ObjectOk(o)
      case Members(members) => AllOk(members)
      case Want(_) => true
    }
  }

  /** The objects that have symbols: only those count in pass 1. */
  function WithSymbols(objs: seq<Object>): (r: seq<Object>)
    ensures |r| <= |objs|
  {
    if objs == [] then [] else WithSymbols(objs[..|objs| - 1]) + Counted(objs[|objs| - 1])
  }

  function Counted(o: Object): (r: seq<Object>)
    ensures |r| <= 1
  {
    if o.syms == [] then [] else [o]
  }

  lemma {:induction false} WithSymbolsMore(a: seq<Object>, o: Object)
    ensures WithSymbols(a + [o]) == WithSymbols(a) + Counted(o)
  {
    assert (a + [o])[..|a|] == a;
  }

  lemma {:induction false} WithSymbolsConcat(a: seq<Object>, b: seq<Object>)
    ensures WithSymbols(a + b) == WithSymbols(a) + WithSymbols(b)
  {
    hide Counted;
    if b == [] {
      assert a + b == a;
    } else {
      var c, o := b[..|b| - 1], b[|b| - 1];
      WithSymbolsConcat(a, c);
      WithSymbolsMore(a + c, o);
      assert a + b == a + c + [o];
      assert WithSymbols(a) + (WithSymbols(c) + Counted(o)) == WithSymbols(a) + WithSymbols(c) + Counted(o);
    }
  }

  lemma {:induction false} AllHaveSymbols(objs: seq<Object>)
    requires forall j :: 0 <= j < |objs| ==> objs[j].syms != []
    ensures WithSymbols(objs) == objs
  {
    hide WithSymbols;
    if objs == [] {
      NothingLoaded();
    } else {
      var front, last := objs[..|objs| - 1], objs[|objs| - 1];
      assert forall j :: 0 <= j < |front| ==> front[j] == objs[j];
      AllHaveSymbols(front);
      WithSymbolsMore(front, last);
      assert objs == front + [last];
    }
  }

  /** The bss of objects without symbols, which pass 1 leaves out. */
  function Stray(objs: seq<Object>): (n: nat) {
    if objs == [] then 0
    else
      var o := objs[|objs| - 1];
      Stray(objs[..|objs| - 1]) + if o.syms == [] then RoundLong(o.bss) else 0
  }

  // ----- the same object in both passes

  /** Where object j of pass 2 stands among the objects of pass 1. */
  function Rank(objs: seq<Object>, j: nat): (m: nat)
    requires j <= |objs|
  {
    |WithSymbols(objs[..j])|
  }

  /** Object j, if it has symbols, stands there. */
  lemma {:induction false} RankOf(objs: seq<Object>, j: nat)
    requires j < |objs|
    ensures Rank(objs, j) <= |WithSymbols(objs)|
    ensures Rank(objs, j + 1) == Rank(objs, j) + |Counted(objs[j])| <= |WithSymbols(objs)|
    ensures objs[j].syms != [] ==>
      Rank(objs, j) < |WithSymbols(objs)| && WithSymbols(objs)[Rank(objs, j)] == objs[j]
  {
    hide WithSymbols;
    WithSymbolsMore(objs[..j], objs[j]);
    assert objs[..j] + [objs[j]] == objs[..j + 1];
    WithSymbolsConcat(objs[..j + 1], objs[j + 1..]);
    assert objs[..j + 1] + objs[j + 1..] == objs;
  }

  lemma {:induction false} StrayMore(objs: seq<Object>, j: nat)
    requires j < |objs|
    ensures Stray(objs[..j + 1]) == Stray(objs[..j]) + if objs[j].syms == [] then RoundLong(objs[j].bss) else 0
  {
    assert objs[..j + 1][..j] == objs[..j];
  }

  /** What object j adds to the segments in either pass. */
  lemma {:induction false} BeforeNext(objs: seq<Object>, j: nat)
    requires AllOk(objs) && j < |objs| && Rank(objs, j) <= |WithSymbols(objs)|
    ensures Rank(objs, j + 1) <= |WithSymbols(objs)|
    ensures TextBefore(WithSymbols(objs), Rank(objs, j + 1)) ==
      TextBefore(WithSymbols(objs), Rank(objs, j)) + |objs[j].text|
    ensures DataBefore(WithSymbols(objs), Rank(objs, j + 1)) ==
      DataBefore(WithSymbols(objs), Rank(objs, j)) + RoundLong(|objs[j].data|)
    ensures BssBefore(WithSymbols(objs), Rank(objs, j + 1)) ==
      BssBefore(WithSymbols(objs), Rank(objs, j)) + if objs[j].syms == [] then 0 else RoundLong(objs[j].bss)
  {
    hide WithSymbols, Rank;
    RankOf(objs, j);
    assert ObjectOk(objs[j]);
  }

  lemma {:induction false} SameBefore(objs: seq<Object>, j: nat)
    requires AllOk(objs) && j <= |objs|
    ensures Rank(objs, j) <= |WithSymbols(objs)|
    ensures TextBefore(objs, j) == TextBefore(WithSymbols(objs), Rank(objs, j))
    ensures DataBefore(objs, j) == DataBefore(WithSymbols(objs), Rank(objs, j))
    ensures BssBefore(objs, j) == BssBefore(WithSymbols(objs), Rank(objs, j)) + Stray(objs[..j])
  {
    hide AllOk, RoundLong;
    if j > 0 {
      SameBefore(objs, j - 1);
      BeforeNext(objs, j - 1);
      StrayMore(objs, j - 1);
    }
  }

  /**
   * Pass 2 moves text and data as pass 1 has counted on, and bss further by what the objects
   * without symbols that came before have of it.
   */
  lemma {:induction false} PassesMoveAlike(objs: seq<Object>, org: Origins, j: nat, kind: Kind)
    requires AllOk(objs) && j < |objs| && objs[j].syms != []
    ensures Rank(objs, j) < |WithSymbols(objs)|
    ensures Moved(objs, org, j, kind) ==
      Moved(WithSymbols(objs), org, Rank(objs, j), kind) + if kind == Bss then Stray(objs[..j]) else 0
  {
    SameBefore(objs, j);
    RankOf(objs, j);
  }

  /**
   * A symbol that only object j defines is reported as multiply defined exactly when it is in
   * the bss and an object without symbols, but with bss, came before.
   */
  lemma {:induction false} FalselyReported(tbl: seq<Sym>, objs: seq<Object>, seen: seq<Object>, opts: Options,
    j: nat, k: nat, name: string)
    requires opts.Ok() && AllOk(objs) && PassOneOk(tbl, WithSymbols(objs), seen)
    requires j < |objs| && k < |objs[j].syms|
    requires Rank(objs, j) < |WithSymbols(objs)| && OnlyDefinition(WithSymbols(objs), seen, name, Rank(objs, j), k)
    ensures var final, org := LinkedTable(tbl, WithSymbols(objs), opts), LinkedOrigins(tbl, WithSymbols(objs), opts);
      MultiplyDefined(final, objs, org, j, k) <==> objs[j].syms[k].kind == Bss && Stray(objs[..j]) != 0
  {
    hide LinkedTable, LinkedOrigins, PassOneOk;
    SameBefore(objs, j);
    RankOf(objs, j);
    PassesMoveAlike(objs, LinkedOrigins(tbl, WithSymbols(objs), opts), j, objs[j].syms[k].kind);
    DefinedOnceAddress(tbl, WithSymbols(objs), seen, opts, name, Rank(objs, j), k);
  }

  // ----- what pass 1 is

  /** `enter(slookup(name))`: the name is wanted. */
  function Mention(st: State, name: string): State {
    if Find(st.table, name) < |st.table| then st
    else st.(table := st.table + [Sym(name, Undf, 0)], nextsym := Past(|st.table| + 1))
  }

  /** The first n members of a library in the order of the archive. */
  function LoadMembers(st: State, members: seq<Object>, n: nat): State
    requires n <= |members|
  {
    if n == 0 then st
    else
      var before := LoadMembers(st, members, n - 1);
      if before.fate.Fine? then LoadOne(before, members[n - 1], true) else before
  }

  /** A member is loaded exactly if it has symbols and defines something wanted when its turn comes. */
  lemma {:induction false} MemberLoaded(st: State, members: seq<Object>, n: nat)
    requires n < |members| && LoadMembers(st, members, n).fate.Fine?
    ensures var before, now := LoadMembers(st, members, n), LoadMembers(st, members, n + 1);
      now.loaded == before.loaded +
                    if members[n].syms != [] && Merged(before, members[n]).1 != 0 then [members[n]] else []
  {
    hide MergeFirst, Merged;
    var before := LoadMembers(st, members, n);
    assert LoadMembers(st, members, n + 1) == LoadOne(before, members[n], true);
  }

  /** `load1arg`, and the flags that mention names. */
  ghost predicate ArgRun(st: State, arg: Arg, after: State) {
    if !st.fate.Fine? then after == st
    else
      match arg
      case File(o) => after == LoadOne(st, o, false)
      case Library(tab, archive) => Searched(st, tab, archive, after)
      case Members(members) => after == LoadMembers(st, members, |members|)
      case Want(name) => after == Mention(st, name)
  }

  /** What pass 2 will load for an argument: the file, symbols or not, or the members loaded in pass 1. */
  function OrderOf(arg: Arg, st: State, after: State): seq<Object> {
    match arg
    case File(o) => [o]
    case Want(_) => []
    case _ => if |st.loaded| <= |after.loaded| then after.loaded[|st.loaded|..] else []
  }

  /** The states of pass 1 between the arguments. */
  ghost predicate Trace(args: seq<Arg>, states: seq<State>) {
    && |states| == |args| + 1 && states[0] == Start
    && forall i :: 0 <= i < |args| ==> ArgRun(states[i], args[i], states[i + 1])
  }

  function Order(args: seq<Arg>, states: seq<State>, n: nat): seq<Object>
    requires n <= |args| && n < |states|
  {
    if n == 0 then [] else Order(args, states, n - 1) + OrderOf(args[n - 1], states[n - 1], states[n])
  }

  /** Pass 1 has only one way to go. */
  lemma {:induction false} OneTrace(args: seq<Arg>, a: seq<State>, b: seq<State>, n: nat)
    requires Trace(args, a) && Trace(args, b) && n <= |args|
    ensures a[n] == b[n]
  {
    if n > 0 {
      OneTrace(args, a, b, n - 1);
      assert ArgRun(a[n - 1], args[n - 1], a[n]) && ArgRun(b[n - 1], args[n - 1], b[n]);
      if a[n - 1].fate.Fine? && args[n - 1].Library? {
        SearchedOnce(a[n - 1], args[n - 1].tab, args[n - 1].archive, a[n], b[n]);
      }
    }
  }

  // ----- when `nextsym` is left behind

  /**
   * Where pass 1 is: nothing has been entered yet; the first symbols have been entered and
   * backed out, so that `nextsym` is stale; some symbol has been entered to stay; or something
   * has gone wrong.
   */
  datatype Mood = Nothing | Pending | Entered | Spoilt

  function MoodOf(st: State): Mood {
    if !st.fate.Fine? then Spoilt
    else if st.table != [] then Entered
    else if st.nextsym.Null? then Nothing else Pending
  }

  predicate HasExternal(o: Object) {
    exists k :: 0 <= k < |o.syms| && o.syms[k].ext
  }

  /** The object defines a name that it mentions as undefined before. */
  predicate DefinesItsOwn(o: Object) {
    MergeFirst([], o, |o.syms|, 0, 0, 0).1 != 0
  }

  function AfterObject(mood: Mood, o: Object, libflg: bool): Mood {
    if o.syms == [] || mood.Entered? || mood.Spoilt? then mood
    else if mood.Pending? then Spoilt
    else if !HasExternal(o) then Nothing
    else if libflg && !DefinesItsOwn(o) then Pending else Entered
  }

  function AfterMembers(mood: Mood, members: seq<Object>, n: nat): Mood
    requires n <= |members|
  {
    if n == 0 then mood else AfterObject(AfterMembers(mood, members, n - 1), members[n - 1], true)
  }

  function AfterArg(mood: Mood, arg: Arg): Mood {
    match arg
    case File(o) => AfterObject(mood, o, false)
    case Library(_, _) => if mood.Pending? then Spoilt else mood
    case Members(members) => AfterMembers(mood, members, |members|)
    case Want(_) => if mood.Spoilt? then Spoilt else Entered
  }

  function AfterArgs(args: seq<Arg>, n: nat): Mood
    requires n <= |args|
  {
    if n == 0 then Nothing else AfterArg(AfterArgs(args, n - 1), args[n - 1])
  }

  /**
   * No member of a library without a table of contents is backed out while nothing else has
   * been entered, or else the next thing entered is a name after `-u` or `-e`.
   */
  predicate Sound(args: seq<Arg>) {
    var mood := AfterArgs(args, |args|);
    mood.Nothing? || mood.Entered?
  }

  /** Entries of the same names and kinds, and of the same sizes. */
  ghost predicate Alike(a: seq<Sym>, b: seq<Sym>) {
    && |a| == |b|
    && forall i :: 0 <= i < |a| ==>
      a[i].name == b[i].name && a[i].kind == b[i].kind && (a[i].kind == Undf ==> a[i].value == b[i].value)
  }

  lemma {:induction false} FindAlike(a: seq<Sym>, b: seq<Sym>, name: string)
    requires |a| == |b| && forall i :: 0 <= i < |a| ==> a[i].name == b[i].name
    ensures Find(a, name) == Find(b, name)
  {
    if a != [] {
      FindAlike(a[..|a| - 1], b[..|b| - 1], name);
    }
  }

  lemma {:induction false} MergeAlike(a: seq<Sym>, b: seq<Sym>, s: ObjSym, t: ObjSym)
    requires Alike(a, b) && s.name == t.name && s.kind == t.kind && (s.kind == Undf ==> s.value == t.value)
    ensures Alike(Merge(a, s).0, Merge(b, t).0) && Merge(a, s).1 == Merge(b, t).1
  {
    FindAlike(a, b, s.name);
  }

  /** Where the object is loaded has no influence on what is counted as a definition. */
  lemma {:induction false} PlaceDoesNotCount(o: Object, k: nat, t: int, d: int, b: int)
    requires k <= |o.syms|
    ensures var x, y := MergeFirst([], o, k, t, d, b), MergeFirst([], o, k, 0, 0, 0);
      Alike(x.0, y.0) && x.1 == y.1
  {
    hide Merge, Alike;
    if k > 0 {
      PlaceDoesNotCount(o, k - 1, t, d, b);
      var x, y := MergeFirst([], o, k - 1, t, d, b), MergeFirst([], o, k - 1, 0, 0, 0);
      MergeAlike(x.0, y.0, Relocated(o, o.syms[k - 1], t, d, b), Relocated(o, o.syms[k - 1], 0, 0, 0));
    } else {
      NoneAlike();
    }
  }

  lemma NoneAlike()
    ensures Alike([], [])
  {
  }

  /** Nothing is entered if and only if there is no external symbol. */
  lemma {:induction false} NothingEntered(o: Object, k: nat, t: int, d: int, b: int)
    requires k <= |o.syms|
    ensures MergeFirst([], o, k, t, d, b).0 == [] <==> forall j :: 0 <= j < k ==> !o.syms[j].ext
  {
    if k > 0 {
      NothingEntered(o, k - 1, t, d, b);
      if o.syms[k - 1].ext {
        Longer(MergeFirst([], o, k - 1, t, d, b).0, Relocated(o, o.syms[k - 1], t, d, b));
      }
    }
  }

  lemma Longer(tbl: seq<Sym>, s: ObjSym)
    ensures Merge(tbl, s).0 != []
  {
  }

  lemma {:induction false} ObjectMood(st: State, o: Object, libflg: bool)
    requires st.Ok()
    ensures MoodOf(LoadOne(st, o, libflg)) == AfterObject(MoodOf(st), o, libflg)
  {
    hide PassOneOk, MergeFirst;
    StateFacts(st);
    FineUnlessStale(st, o, libflg);
    if st.table == [] {
      PlaceDoesNotCount(o, |o.syms|, st.tsize, st.dsize, st.bsize);
      NothingEntered(o, |o.syms|, st.tsize, st.dsize, st.bsize);
    }
  }

  /** In an empty table nothing is looked for. */
  lemma {:induction false} NothingWanted(st: State, tab: seq<TocEntry>, archive: Archive, tp: nat)
    requires st.table == [] && tp <= |tab|
    ensures PassFrom(st, tab, archive, tp) == st
    decreases |tab| - tp
  {
    if tp < |tab| {
      NothingWanted(st, tab, archive, tp + 1);
    }
  }

  lemma {:induction false} NothingFound(st: State, tab: seq<TocEntry>, archive: Archive, n: nat)
    requires st.table == []
    ensures Passes(st, tab, archive, n) == st
  {
    if n > 0 {
      NothingFound(st, tab, archive, n - 1);
      NothingWanted(st, tab, archive, 0);
    }
  }

  lemma {:induction false} LibraryMood(st: State, tab: seq<TocEntry>, archive: Archive, after: State)
    requires st.Ok() && Searched(st, tab, archive, after)
    requires (after.fate.Fine? <==> !st.Stale()) && (after.fate.Fine? ==> |st.table| <= |after.table|)
    ensures MoodOf(after) == AfterArg(MoodOf(st), Library(tab, archive))
  {
    hide PassOneOk, Passes;
    StateFacts(st);
    if !st.Stale() && st.table == [] {
      var n: nat :| Settles(st, tab, archive, n) && after == Passes(st, tab, archive, n);
      NothingFound(st, tab, archive, n);
    }
  }

  lemma {:induction false} MentionKeeps(st: State, name: string)
    requires st.Ok()
    ensures Mention(st, name).Ok() && MoodOf(Mention(st, name)) == Entered
  {
    var s := ObjSym(name, true, Undf, 0);
    var now := Mention(st, name);
    if Find(st.table, name) == |st.table| {
      MergeFollows(st.table, s);
      assert now.table == Merge(st.table, s).0;
      forall i | 0 <= i < |now.table| ensures Justified(st.loaded, now.table[i]) && SizeKnown(st.seen, now.table[i]) {
        assert i < |st.table| ==> now.table[i] == st.table[i];
      }
      forall other | Satisfied(st.table, other) ensures Satisfied(now.table, other) {
        SatisfiedLater(st.table, now.table, false, st.seen, other);
      }
      forall other | Present(st.table, other) ensures Present(now.table, other) {
        PresentLater(st.table, now.table, false, other);
      }
    }
  }

  // ----- pass 1

  /** Library members in the order of the archive, each loaded if it defines something wanted. */
  method SearchMembers(lk: Linker, members: seq<Object>)
    requires lk.S().Ok() && AllOk(members)
    modifies lk
    ensures lk.S() == LoadMembers(old(lk.S()), members, |members|)
    ensures MoodOf(lk.S()) == AfterMembers(MoodOf(old(lk.S())), members, |members|)
    ensures lk.fate.Fine? ==> lk.S().Ok() && old(lk.loaded) <= lk.loaded
    ensures lk.fate.Fine? ==> forall m :: |old(lk.loaded)| <= m < |lk.loaded| ==> lk.loaded[m] in members
  {
    hide PassOneOk, State.Ok, AfterObject;
    var i := 0;
    while i < |members| && lk.fate.Fine?
      invariant i <= |members| && lk.S() == LoadMembers(old(lk.S()), members, i)
      invariant MoodOf(lk.S()) == AfterMembers(MoodOf(old(lk.S())), members, i)
      invariant lk.fate.Fine? ==> lk.S().Ok() && old(lk.loaded) <= lk.loaded
      invariant lk.fate.Fine? ==> forall m :: |old(lk.loaded)| <= m < |lk.loaded| ==> lk.loaded[m] in members
    {
      assert ObjectOk(members[i]);
      ObjectMood(lk.S(), members[i], true);
      var used := lk.Load1(members[i], true);
      i := i + 1;
    }
    GivenUp(old(lk.S()), members, i);
  }

  /** Once something has gone wrong nothing more happens. */
  lemma {:induction false} GivenUp(st: State, members: seq<Object>, i: nat)
    requires i <= |members| && (i == |members| || !LoadMembers(st, members, i).fate.Fine?)
    ensures LoadMembers(st, members, |members|) == LoadMembers(st, members, i)
    ensures !LoadMembers(st, members, i).fate.Fine? && AfterMembers(MoodOf(st), members, i) == Spoilt ==>
      AfterMembers(MoodOf(st), members, |members|) == Spoilt
    decreases |members| - i
  {
    if i < |members| {
      GivenUp(st, members, i + 1);
    }
  }

  /** The members loaded since there were n objects. */
  lemma {:induction false} LoadedSince(was: seq<Object>, loaded: seq<Object>)
    requires was <= loaded && forall m :: 0 <= m < |loaded| ==> loaded[m].syms != []
    ensures loaded == was + WithSymbols(loaded[|was|..])
  {
    AllHaveSymbols(loaded[|was|..]);
  }

  /** `load1arg` on a plain file. */
  method LoadFile(lk: Linker, o: Object)
    requires lk.S().Ok() && ObjectOk(o)
    modifies lk
    ensures lk.S() == LoadOne(old(lk.S()), o, false) && (lk.fate.Fine? ==> lk.S().Ok())
    ensures lk.loaded == old(lk.loaded) + WithSymbols([o])
    ensures MoodOf(lk.S()) == AfterObject(MoodOf(old(lk.S())), o, false)
  {
    hide PassOneOk, MergeFirst, State.Ok, AfterObject;
    ObjectMood(lk.S(), o, false);
    var used := lk.Load1(o, false);
    WithSymbolsMore([], o);
    assert [] + [o] == [o];
  }

  /** `-u` and `-e`. */
  method EnterWanted(lk: Linker, name: string)
    requires lk.S().Ok()
    modifies lk`table, lk`nextsym
    ensures lk.S() == Mention(old(lk.S()), name) && lk.S().Ok()
    ensures MoodOf(lk.S()) == Entered
  {
    hide PassOneOk, State.Ok;
    MentionKeeps(lk.S(), name);
    if Find(lk.table, name) == |lk.table| {
      lk.table := lk.table + [Sym(name, Undf, 0)];
      lk.nextsym := Past(|lk.table|);
    }
  }

  /** One argument of pass 1; `order` is what pass 2 will load for it. */
  method Load1Arg(lk: Linker, arg: Arg) returns (order: seq<Object>)
    requires lk.S().Ok() && arg.Ok()
    modifies lk
    ensures ArgRun(old(lk.S()), arg, lk.S()) && order == OrderOf(arg, old(lk.S()), lk.S())
    ensures MoodOf(lk.S()) == AfterArg(MoodOf(old(lk.S())), arg)
    ensures lk.fate.Fine? ==>
      lk.S().Ok() && AllOk(order) && lk.loaded == old(lk.loaded) + WithSymbols(order)
  {
    hide PassOneOk, WithSymbols, State.Ok, ObjectOk, LoadOne, AfterObject, Mention;
    StateFacts(lk.S());
    match arg {
      case File(o) =>
        LoadFile(lk, o);
        order := [o];
      case Want(name) =>
        EnterWanted(lk, name);
        NothingLoaded();
        order := [];
      case _ =>
        order := LoadFrom(lk, arg);
    }
  }

  /** An argument of pass 1 that is an archive. */
  method LoadFrom(lk: Linker, arg: Arg) returns (order: seq<Object>)
    requires lk.S().Ok() && arg.Ok() && (arg.Library? || arg.Members?)
    modifies lk
    ensures ArgRun(old(lk.S()), arg, lk.S()) && order == OrderOf(arg, old(lk.S()), lk.S())
    ensures MoodOf(lk.S()) == AfterArg(MoodOf(old(lk.S())), arg)
    ensures lk.fate.Fine? ==>
      lk.S().Ok() && AllOk(order) && lk.loaded == old(lk.loaded) + WithSymbols(order)
  {
    hide PassOneOk, WithSymbols, ObjectOk, Searched, LoadMembers, MoodOf, AfterMembers;
    ghost var st := lk.S();
    var n := |lk.loaded|;
    StateFacts(st);
    match arg {
      case Library(tab, archive) =>
        ArchiveFits(archive);
        SearchLibrary(lk, tab, archive);
        LibraryMood(st, tab, archive, lk.S());
      case Members(members) =>
        SearchMembers(lk, members);
    }
    order := if n <= |lk.loaded| then lk.loaded[n..] else [];
    if lk.fate.Fine? {
      LoadedSince(st.loaded, lk.loaded);
    }
  }

  lemma NothingLoaded()
    ensures WithSymbols([]) == []
  {
  }

  lemma {:induction false} ArchiveFits(archive: Archive)
    requires forall o :: o in archive.Values ==> ObjectOk(o)
    ensures ArchiveOk(archive)
  {
    assert forall off :: off in archive ==> archive[off] in archive.Values;
  }

  /** Pass 1: the loop of `main` over the arguments. */
  method PassOne(args: seq<Arg>) returns (lk: Linker, order: seq<Object>, ghost states: seq<State>)
    requires forall i :: 0 <= i < |args| ==> args[i].Ok()
    ensures fresh(lk) && Trace(args, states) && lk.S() == states[|args|]
    ensures MoodOf(lk.S()) == AfterArgs(args, |args|)
    ensures lk.fate.Fine? ==> lk.S().Ok() && AllOk(order)
    ensures lk.fate.Fine? ==> order == Order(args, states, |args|) && lk.loaded == WithSymbols(order)
  {
    hide PassOneOk, State.Ok, WithSymbols, ArgRun, OrderOf, AfterArg;
    lk := new Linker();
    order := [];
    states := [lk.S()];
    StartOk();
    NothingLoaded();
    var i := 0;
    while i < |args|
      invariant i <= |args| && fresh(lk) && |states| == i + 1 && states[0] == Start && states[i] == lk.S()
      invariant forall j :: 0 <= j < i ==> ArgRun(states[j], args[j], states[j + 1])
      invariant MoodOf(lk.S()) == AfterArgs(args, i)
      invariant lk.fate.Fine? ==> lk.S().Ok() && AllOk(order) && lk.loaded == WithSymbols(order)
      invariant lk.fate.Fine? ==> order == Order(args, states, i)
    {
      ghost var was := states;
      if lk.fate.Fine? {
        var more := Load1Arg(lk, args[i]);
        WithSymbolsConcat(order, more);
        order := order + more;
      } else {
        StaysSpoilt(lk.S(), args[i]);
      }
      states := states + [lk.S()];
      SameOrder(args, was, states, i);
      i := i + 1;
    }
  }

  lemma {:induction false} SameOrder(args: seq<Arg>, a: seq<State>, b: seq<State>, n: nat)
    requires n <= |args| && n < |a| && a <= b
    ensures Order(args, a, n) == Order(args, b, n)
  {
    if n > 0 {
      SameOrder(args, a, b, n - 1);
    }
  }

  lemma StartOk()
    ensures Start.Ok() && MoodOf(Start) == Nothing
  {
  }

  lemma StaysSpoilt(st: State, arg: Arg)
    requires !st.fate.Fine?
    ensures ArgRun(st, arg, st) && AfterArg(Spoilt, arg) == Spoilt
  {
    if arg.Members? {
      MembersSpoilt(arg.members, |arg.members|);
    }
  }

  lemma {:induction false} MembersSpoilt(members: seq<Object>, n: nat)
    requires n <= |members|
    ensures AfterMembers(Spoilt, members, n) == Spoilt
  {
    if n > 0 {
      MembersSpoilt(members, n - 1);
    }
  }

  // ----- pass 2

  datatype Output = Output(text: seq<byte>, data: seq<byte>)

  /** The whole program as pass 2 writes it, object by object. */
  ghost predicate Written(objs: seq<Object>, org: Origins, final: seq<Sym>, out: seq<Output>)
    requires AllOk(objs)
  {
    && |out| <= |objs|
    && forall j :: 0 <= j < |out| ==>
      && out[j].text == LinkedCode(objs, org, final, j, Text, objs[j].treloc, objs[j].text)
      && out[j].data == LinkedCode(objs, org, final, j, Data, objs[j].dreloc, objs[j].data)
  }

  /** The complaints about the first n objects. */
  ghost predicate Complained(objs: seq<Object>, org: Origins, final: seq<Sym>, n: nat, complaints: set<(nat, nat)>) {
    forall j: nat, k: nat :: (j, k) in complaints <==>
      j < n && j < |objs| && k < |objs[j].syms| && MultiplyDefined(final, objs, org, j, k)
  }

  /** Every relocation of object j has a meaning. */
  predicate Relocatable(objs: seq<Object>, org: Origins, final: seq<Sym>, j: nat)
    requires j < |objs|
  {
    var o := objs[j];
    var rel := Rel(Moved(objs, org, j, Text), Moved(objs, org, j, Data), Moved(objs, org, j, Bss));
    && (forall i :: 0 <= i < |o.treloc| ==> Amount(o, final, rel, rel.text, o.treloc[i]).Some?)
    && (forall i :: 0 <= i < |o.dreloc| ==> Amount(o, final, rel, rel.data, o.dreloc[i]).Some?)
  }

  ghost predicate AllKnown(objs: seq<Object>, final: seq<Sym>) {
    forall j :: 0 <= j < |objs| ==> NamesKnown(objs[j], final)
  }

  /** Pass 2: `load2` on every object, in the order of pass 1. */
  method PassTwoAll(objs: seq<Object>, final: seq<Sym>, org: Origins)
    returns (ok: bool, complaints: set<(nat, nat)>, out: seq<Output>)
    requires AllOk(objs) && AllKnown(objs, final)
    ensures ok <==> forall j :: 0 <= j < |objs| ==> Relocatable(objs, org, final, j)
    ensures ok ==> |out| == |objs| && Written(objs, org, final, out)
    ensures ok ==> Complained(objs, org, final, |objs|, complaints)
  {
    hide LinkedCode, MultiplyDefined, NamesKnown, Relocatable;
    var p := new PassTwo(org);
    complaints, out := {}, [];
    for j := 0 to |objs|
      invariant p.torigin == org.text + TextBefore(objs, j)
      invariant p.dorigin == org.data + DataBefore(objs, j)
      invariant p.borigin == org.bss + BssBefore(objs, j)
      invariant |out| == j && Written(objs, org, final, out)
      invariant Complained(objs, org, final, j, complaints)
      invariant forall i :: 0 <= i < j ==> Relocatable(objs, org, final, i)
    {
      var good, ks, text, data := LoadNext(p, objs, org, final, j);
      if !good {
        return false, complaints, out;
      }
      complaints := complaints + set k | k in ks :: (j, k);
      out := out + [Output(text, data)];
    }
    ok := true;
  }

  /** `load2` on object j. */
  method LoadNext(p: PassTwo, objs: seq<Object>, org: Origins, final: seq<Sym>, j: nat)
    returns (ok: bool, ks: seq<nat>, text: seq<byte>, data: seq<byte>)
    requires AllOk(objs) && j < |objs| && NamesKnown(objs[j], final)
    requires p.torigin == org.text + TextBefore(objs, j)
    requires p.dorigin == org.data + DataBefore(objs, j)
    requires p.borigin == org.bss + BssBefore(objs, j)
    modifies p
    ensures forall k: nat :: k in ks <==> k < |objs[j].syms| && MultiplyDefined(final, objs, org, j, k)
    ensures ok <==> Relocatable(objs, org, final, j)
    ensures ok ==>
      && text == LinkedCode(objs, org, final, j, Text, objs[j].treloc, objs[j].text)
      && data == LinkedCode(objs, org, final, j, Data, objs[j].dreloc, objs[j].data)
      && p.torigin == org.text + TextBefore(objs, j + 1)
      && p.dorigin == org.data + DataBefore(objs, j + 1)
      && p.borigin == org.bss + BssBefore(objs, j + 1)
  {
    assert ObjectOk(objs[j]);
    var texts, datas;
    ok, ks, texts, datas := p.Load2(objs[j], final);
    text, data := texts[..], datas[..];
  }

  // ----- the link

  lemma {:induction false} NamesStayKnown(tbl: seq<Sym>, objs: seq<Object>, seen: seq<Object>, opts: Options)
    requires opts.Ok() && PassOneOk(tbl, WithSymbols(objs), seen) && AllOk(objs)
    ensures AllKnown(objs, LinkedTable(tbl, WithSymbols(objs), opts))
  {
    hide FinalTable;
    var loaded := WithSymbols(objs);
    var n := |loaded|;
    forall j, k | 0 <= j < |objs| && 0 <= k < |objs[j].syms| && objs[j].syms[k].ext
      ensures Present(LinkedTable(tbl, loaded, opts), objs[j].syms[k].name)
    {
      RankOf(objs, j);
      var m := Rank(objs, j);
      assert loaded[m].syms[k].ext;
      assert Present(tbl, loaded[m].syms[k].name);
      FinalNames(tbl, opts, TextBefore(loaded, n), DataBefore(loaded, n), BssBefore(loaded, n), objs[j].syms[k].name);
    }
  }

  /**
   * What `middle` finds: `nextsym`, if it is stale, leads it to entries that have been backed
   * out, or to no segment.
   */
  function AtEnd(st: State): Fate {
    if !st.fate.Fine? || !st.Stale() then st.fate
    else if st.nextsym.n < 1 || SegmentOf(st.nextsym.n) > 0 then Botch else Dangling(st.nextsym.n)
  }

  lemma {:induction false} FineAtEnd(st: State)
    requires st.fate.Fine? ==> st.Ok()
    ensures AtEnd(st).Fine? <==> MoodOf(st).Nothing? || MoodOf(st).Entered?
  {
    if st.fate.Fine? {
      StateFacts(st);
    }
  }

  /**
   * `main`. Pass 1 goes over the arguments; nothing goes wrong with the symbol table if and only
   * if they are sound. Then pass 2 goes over the same objects. It succeeds if and only if every
   * relocation has a meaning; every object is then written with its relocations done by the
   * finished table, and the complaints are exactly those about definitions that the table has
   * elsewhere.
   */
  method Link(args: seq<Arg>, opts: Options)
    returns (fate: Fate, ok: bool, objs: seq<Object>, final: seq<Sym>, org: Origins, complaints: set<(nat, nat)>,
             out: seq<Output>, ghost states: seq<State>)
    requires opts.Ok() && forall i :: 0 <= i < |args| ==> args[i].Ok()
    ensures Trace(args, states) && fate == AtEnd(states[|args|])
    ensures fate.Fine? <==> Sound(args)
    ensures fate.Fine? ==> Linked(args, states, opts, objs, final, org)
    ensures fate.Fine? ==> (ok <==> forall j :: 0 <= j < |objs| ==> Relocatable(objs, org, final, j))
    ensures fate.Fine? && ok ==> |out| == |objs| && Written(objs, org, final, out)
    ensures fate.Fine? && ok ==> Complained(objs, org, final, |objs|, complaints)
  {
    hide PassOneOk, FinalTable, OriginsFor, ArgRun, MoodOf, AfterArgs, Relocatable, Written;
    var lk;
    lk, objs, states := PassOne(args);
    FineAtEnd(lk.S());
    fate := FateAtEnd(lk);
    ok, final, complaints, out := false, lk.table, {}, [];
    org := Origins(0, 0, 0, 0);
    if !fate.Fine? {
      return;
    }
    NamesStayKnown(lk.table, objs, lk.seen, opts);
    var rflag;
    org, rflag := Middle(lk, opts);
    final := lk.table;
    ok, complaints, out := PassTwoAll(objs, final, org);
  }

  method FateAtEnd(lk: Linker) returns (fate: Fate)
    ensures fate == AtEnd(lk.S())
  {
    fate := lk.fate;
    if fate.Fine? && lk.nextsym.Past? && lk.nextsym.n != |lk.table| {
      fate := if lk.nextsym.n < 1 || SegmentOf(lk.nextsym.n) > 0 then Botch else Dangling(lk.nextsym.n);
    }
  }

  /** The objects in the order of pass 1, the table when it was done, and what `middle` has made of it. */
  ghost predicate Linked(args: seq<Arg>, states: seq<State>, opts: Options, objs: seq<Object>, final: seq<Sym>,
                         org: Origins)
  {
    && opts.Ok() && |states| == |args| + 1 && AllOk(objs)
    && objs == Order(args, states, |args|)
    && var st := states[|args|];
    && st.Ok() && st.loaded == WithSymbols(objs)
    && final == LinkedTable(st.table, st.loaded, opts) && org == LinkedOrigins(st.table, st.loaded, opts)
  }

  /**
   * A library of useless members first in a link is not sound, nor is it by itself; after an
   * object, or before a name, it is.
   */
  lemma {:induction false} UselessFirst(a: Object, b: Object, name: string)
    requires HasExternal(a) && HasExternal(b) && !DefinesItsOwn(a) && !DefinesItsOwn(b)
    ensures !Sound([Members([a, b])]) && !Sound([Members([a])])
    ensures Sound([File(a), Members([b])]) && Sound([Members([a]), Want(name)])
  {
    hide HasExternal, DefinesItsOwn;
    SomeSymbols(a);
    SomeSymbols(b);
    AllUseless([a, b], 1);
    AllUseless([a, b], 2);
    AllUseless([a], 1);
    KeepsEntered([b], 1);
    OneArg(Members([a, b]));
    OneArg(Members([a]));
    OneArg(File(a));
    TwoArgs(File(a), Members([b]));
    TwoArgs(Members([a]), Want(name));
  }

  lemma SomeSymbols(o: Object)
    requires HasExternal(o)
    ensures o.syms != []
  {
  }

  lemma {:induction false} AllUseless(members: seq<Object>, n: nat)
    requires 1 <= n <= |members| && forall m :: 0 <= m < n ==>
      members[m].syms != [] && HasExternal(members[m]) && !DefinesItsOwn(members[m])
    ensures AfterMembers(Nothing, members, n) == if n == 1 then Pending else Spoilt
  {
    hide HasExternal, DefinesItsOwn;
    if n > 1 {
      AllUseless(members, n - 1);
    } else {
      assert AfterMembers(Nothing, members, 0) == Nothing;
    }
  }

  lemma {:induction false} KeepsEntered(members: seq<Object>, n: nat)
    requires n <= |members|
    ensures AfterMembers(Entered, members, n) == Entered
  {
    if n > 0 {
      KeepsEntered(members, n - 1);
    }
  }

  lemma {:induction false} OneArg(a: Arg)
    ensures AfterArgs([a], 1) == AfterArg(Nothing, a)
  {
    hide AfterArg;
    assert AfterArgs([a], 0) == Nothing;
  }

  lemma {:induction false} TwoArgs(a: Arg, b: Arg)
    ensures AfterArgs([a, b], 2) == AfterArg(AfterArg(Nothing, a), b)
  {
    hide AfterArg;
    assert AfterArgs([a, b], 0) == Nothing;
    assert AfterArgs([a, b], 1) == AfterArg(Nothing, a);
  }

  /** The objects of the two-member link are such. */
  lemma {:induction false} UselessIsUseless(name: string)
    ensures HasExternal(Useless(name)) && !DefinesItsOwn(Useless(name))
  {
    OneSymbol(Start, name);
    assert Useless(name).syms[0].ext;
  }

  // ----- what the output means

  function Relocs(o: Object, segment: Kind): seq<Reloc> {
    if segment == Text then o.treloc else o.dreloc
  }

  function CodeOf(o: Object, segment: Kind): seq<byte> {
    if segment == Text then o.text else o.data
  }

  function OutputOf(out: Output, segment: Kind): seq<byte> {
    if segment == Text then out.text else out.data
  }

  /** In the output the word at relocation i of a segment of object j refers to `target`. */
  predicate OutputRefersTo(objs: seq<Object>, org: Origins, out: seq<Output>, j: nat, segment: Kind, i: nat,
                           target: int)
    requires j < |objs| && j < |out| && i < |Relocs(objs[j], segment)|
  {
    var r, code := Relocs(objs[j], segment)[i], OutputOf(out[j], segment);
    && r.addr + 4 <= |code|
    && Same(LongAt(code, r.addr),
            Reference(target, r.pcrel, Address(objs, org, Site(j, segment, Relocs(objs[j], segment), i))))
  }

  lemma {:induction false} OutputWord(objs: seq<Object>, org: Origins, final: seq<Sym>, out: seq<Output>, j: nat,
    segment: Kind, i: nat, target: int)
    requires AllOk(objs) && Written(objs, org, final, out) && j < |out| && i < |Relocs(objs[j], segment)|
    requires segment == Text || segment == Data
    ensures WithinCode(Relocs(objs[j], segment), CodeOf(objs[j], segment))
    ensures OutputRefersTo(objs, org, out, j, segment, i, target) <==>
      LinkedRefersTo(objs, org, final, j, segment, Relocs(objs[j], segment), CodeOf(objs[j], segment), i, target)
  {
    hide LinkedCode, LongAt;
    assert ObjectOk(objs[j]);
  }

  /** A place is where pass 1 has counted it, or in the bss that much further on. */
  lemma {:induction false} PlaceInBoth(objs: seq<Object>, org: Origins, place: Loc)
    requires AllOk(objs) && place.m < |objs| && objs[place.m].syms != []
    ensures var m := Rank(objs, place.m);
      && m < |WithSymbols(objs)| && WithSymbols(objs)[m] == objs[place.m]
      && Address(objs, org, place) == Address(WithSymbols(objs), org, place.(m := m))
                                      + if place.kind == Bss then Stray(objs[..place.m]) else 0
  {
    SameBefore(objs, place.m);
    RankOf(objs, place.m);
  }

  lemma {:induction false} SameFurther(w: int, x: int, n: int)
    requires Same(w, x)
    ensures Same(w, x + n) <==> n % WORD == 0
  {
    var d := w - x;
    assert d == WORD * (d / WORD);
    Numbers.ModShift(-n, WORD, d / WORD);
    assert w - (x + n) == -n + WORD * (d / WORD);
  }

  /** The definition's place, `off` bytes into its segment, is what the symbol denotes in its object. */
  predicate DefinedAt(objs: seq<Object>, k: nat, place: Loc) {
    && place.m < |objs| && k < |objs[place.m].syms| && place.kind == objs[place.m].syms[k].kind
    && ObjectAddress(objs, place) == objs[place.m].syms[k].value
  }

  /**
   * What comes out of a link means what went in: where object j has a word that refers to a
   * name (plus `a`), and the name is defined once, at `place`, and never common, the word in
   * the output refers to where that place has been loaded (plus `a`), if and only if the place
   * is not in the bss or the bss in front of it in objects without symbols comes to nothing,
   * modulo the size of a word's range.
   */
  lemma {:induction false} OutputResolves(tbl: seq<Sym>, objs: seq<Object>, seen: seq<Object>, opts: Options,
    out: seq<Output>, j: nat, segment: Kind, i: nat, name: string, k: nat, place: Loc, a: int)
    requires opts.Ok() && AllOk(objs) && PassOneOk(tbl, WithSymbols(objs), seen)
    requires Written(objs, LinkedOrigins(tbl, WithSymbols(objs), opts), LinkedTable(tbl, WithSymbols(objs), opts), out)
    requires j < |out| && (segment == Text || segment == Data)
    requires i < |Relocs(objs[j], segment)| && Apart(Sites(Relocs(objs[j], segment)))
    requires WithinCode(Relocs(objs[j], segment), CodeOf(objs[j], segment))
    requires Relocs(objs[j], segment)[i].target.Extern?
    requires IsUndefinedRef(objs[j], Relocs(objs[j], segment)[i].target.symno)
    requires objs[j].syms[Relocs(objs[j], segment)[i].target.symno].name == name
    requires DefinedAt(objs, k, place)
    requires OnlyDefinition(WithSymbols(objs), seen, name, Rank(objs, place.m), k)
    requires RefersTo(objs, j, segment, Relocs(objs[j], segment), CodeOf(objs[j], segment), i, a)
    ensures var org := LinkedOrigins(tbl, WithSymbols(objs), opts);
      OutputRefersTo(objs, org, out, j, segment, i, Address(objs, org, place) + a) <==>
      (place.kind == Bss ==> Stray(objs[..place.m]) % WORD == 0)
  {
    hide LinkedTable, LinkedOrigins, PassOneOk, LinkedCode, OnlyDefinition, IsUndefinedRef, LongAt, WithSymbols, Stray;
    var loaded := WithSymbols(objs);
    var final, org := LinkedTable(tbl, loaded, opts), LinkedOrigins(tbl, loaded, opts);
    var first := place.(m := Rank(objs, place.m));
    PlaceInBoth(objs, org, place);
    DefinedOncePlace(tbl, loaded, seen, opts, name, k, first);
    var counted := Address(loaded, org, first);
    WordThroughTable(objs, org, final, j, segment, Relocs(objs[j], segment), CodeOf(objs[j], segment), i, counted, a);
    OutputWord(objs, org, final, out, j, segment, i, counted + a);
    OutputFurther(objs, org, out, j, segment, i, counted + a, Address(objs, org, place) - counted);
  }

  /** A word refers to one place only, up to the size of a word. */
  lemma {:induction false} OutputFurther(objs: seq<Object>, org: Origins, out: seq<Output>, j: nat, segment: Kind,
    i: nat, target: int, n: int)
    requires j < |objs| && j < |out| && i < |Relocs(objs[j], segment)|
    requires OutputRefersTo(objs, org, out, j, segment, i, target)
    ensures OutputRefersTo(objs, org, out, j, segment, i, target + n) <==> n % WORD == 0
  {
    hide LongAt;
    var r := Relocs(objs[j], segment)[i];
    var site := Address(objs, org, Site(j, segment, Relocs(objs[j], segment), i));
    SameFurther(LongAt(OutputOf(out[j], segment), r.addr), Reference(target, r.pcrel, site), n);
  }

  /** A word that refers to a place of its own object refers in the output to where that place has been loaded. */
  lemma {:induction false} OutputMoves(objs: seq<Object>, org: Origins, final: seq<Sym>, out: seq<Output>, j: nat,
    segment: Kind, i: nat, place: Loc, a: int)
    requires AllOk(objs) && Written(objs, org, final, out) && j < |out| && (segment == Text || segment == Data)
    requires i < |Relocs(objs[j], segment)| && Apart(Sites(Relocs(objs[j], segment)))
    requires WithinCode(Relocs(objs[j], segment), CodeOf(objs[j], segment))
    requires Relocs(objs[j], segment)[i].target == Local(place.kind) && place.m == j
    requires place.kind != Undf && place.kind != Comm
    requires RefersTo(objs, j, segment, Relocs(objs[j], segment), CodeOf(objs[j], segment), i,
                      ObjectAddress(objs, place) + a)
    ensures OutputRefersTo(objs, org, out, j, segment, i, Address(objs, org, place) + a)
  {
    hide LinkedCode, LongAt;
    LocalReferenceMoves(objs, org, final, j, segment, Relocs(objs[j], segment), CodeOf(objs[j], segment), i, place, a);
    OutputWord(objs, org, final, out, j, segment, i, Address(objs, org, place) + a);
  }

  /** Bytes outside the relocation sites come out as they went in. */
  lemma {:induction false} OutputUntouched(objs: seq<Object>, org: Origins, final: seq<Sym>, out: seq<Output>, j: nat,
    segment: Kind, p: nat)
    requires AllOk(objs) && Written(objs, org, final, out) && j < |out| && (segment == Text || segment == Data)
    requires Apart(Sites(Relocs(objs[j], segment))) && p < |CodeOf(objs[j], segment)|
    requires Outside(Sites(Relocs(objs[j], segment)), |Relocs(objs[j], segment)|, p)
    ensures |OutputOf(out[j], segment)| == |CodeOf(objs[j], segment)|
    ensures OutputOf(out[j], segment)[p] == CodeOf(objs[j], segment)[p]
  {
    hide LongAt, Moved, PatchedFirst, AmountOr0;
    assert ObjectOk(objs[j]);
    var o, rs, code := objs[j], Relocs(objs[j], segment), CodeOf(objs[j], segment);
    var rel := Rel(Moved(objs, org, j, Text), Moved(objs, org, j, Data), Moved(objs, org, j, Bss));
    PatchedSites(code, Sites(rs), Amounts(o, final, rel, Moved(objs, org, j, segment), rs), |rs|);
  }

  // ----- an object without symbols between a reference and its definition

  /** A file whose only word is the address of x. */
  predicate Refers(o: Object, x: string) {
    && o.syms == [ObjSym(x, true, Undf, 0)] && |o.text| == 4 && LongAt(o.text, 0) == 0
    && o.dataStart == 4 && o.data == [] && o.bss == 0
    && o.treloc == [Reloc(0, false, Extern(0))] && o.dreloc == []
  }

  /** A file with nothing but 4 bytes of bss. */
  predicate OnlyBss(o: Object) {
    o.syms == [] && o.text == [] == o.data && o.dataStart == 0 && o.bss == 4 && o.treloc == [] == o.dreloc
  }

  /** A file that has x in its bss. */
  predicate InBss(o: Object, x: string) {
    && o.syms == [ObjSym(x, true, Bss, 0)] && o.text == [] == o.data && o.dataStart == 0 && o.bss == 4
    && o.treloc == [] == o.dreloc
  }

  /** Pass 1 on three such files. */
  lemma {:induction false} ThreeFiles(a: Object, b: Object, c: Object, x: string)
    requires Refers(a, x) && OnlyBss(b) && InBss(c, x)
    ensures LoadOne(LoadOne(LoadOne(Start, a, false), b, false), c, false) ==
      State([Sym(x, Bss, 0)], 4, 0, 4, [a, c], [a, b, c], Past(1), Fine)
    ensures PassOneOk([Sym(x, Bss, 0)], [a, c], [a, b, c])
  {
    var none: seq<Sym> := [];
    var undefined := Sym(x, Undf, 0);
    OnlySymbol(none, a, 0, 0, 0);
    assert none + [undefined] == [undefined];
    OnlySymbol([undefined], c, 4, 0, 0);
    assert Find([undefined], x) == 0;
    assert [undefined][0 := Sym(x, Bss, 0)] == [Sym(x, Bss, 0)];
    StartOk();
    hide PassOneOk, MergeFirst, Merge, Find;
    var one := LoadOne(Start, a, false);
    LoadOneKeeps(Start, a, false);
    var two := LoadOne(one, b, false);
    LoadOneKeeps(one, b, false);
    LoadOneKeeps(two, c, false);
  }

  lemma {:induction false} StrayOfThree(a: Object, b: Object, c: Object, x: string)
    requires Refers(a, x) && OnlyBss(b) && InBss(c, x)
    ensures AllOk([a, b, c]) && WithSymbols([a, b, c]) == [a, c]
    ensures Stray([a, b, c][..2]) == 4 && Rank([a, b, c], 2) == 1
  {
    ThreeOk(a, b, c, x);
    hide LongAt, AllOk, WithSymbols, Stray;
    assert [a, b, c][..2] == [a] + [b];
    WithSymbolsOfThree(a, b, c);
    StrayOfTwo(a, b);
  }

  lemma {:induction false} ThreeOk(a: Object, b: Object, c: Object, x: string)
    requires Refers(a, x) && OnlyBss(b) && InBss(c, x)
    ensures AllOk([a, b, c])
  {
    hide LongAt;
    assert ObjectOk(a) && ObjectOk(b) && ObjectOk(c);
  }

  lemma {:induction false} WithSymbolsOfThree(a: Object, b: Object, c: Object)
    requires a.syms != [] && b.syms == [] && c.syms != []
    ensures WithSymbols([a] + [b]) == [a] && WithSymbols([a, b, c]) == [a, c]
  {
    NothingLoaded();
    hide WithSymbols;
    WithSymbolsMore([], a);
    assert [] + [a] == [a];
    WithSymbolsMore([a], b);
    WithSymbolsMore([a] + [b], c);
    assert [a] + [b] + [c] == [a, b, c] && [a] + [c] == [a, c];
  }

  lemma {:induction false} StrayOfTwo(a: Object, b: Object)
    requires a.syms != [] && b.syms == [] && b.bss == 4
    ensures Stray([a] + [b]) == 4
  {
    assert Stray([]) == 0;
    assert [a][..0] == [] && ([a] + [b])[..1] == [a];
    assert Stray([a]) == 0;
  }

  lemma {:induction false} DefinedInLast(a: Object, b: Object, c: Object, x: string)
    requires Refers(a, x) && OnlyBss(b) && InBss(c, x)
    ensures OnlyDefinition([a, c], [a, b, c], x, 1, 0)
  {
    hide LongAt;
  }

  /**
   * One file refers to x, the next has only bss, the third has x in its bss: x is reported as
   * multiply defined, and the reference does not lead to where the third file has it.
   */
  lemma {:induction false} Misled(a: Object, b: Object, c: Object, x: string, opts: Options, out: seq<Output>)
    requires opts.Ok() && Refers(a, x) && OnlyBss(b) && InBss(c, x)
    ensures var tbl, objs, loaded := [Sym(x, Bss, 0)], [a, b, c], [a, c];
      var final, org := LinkedTable(tbl, loaded, opts), LinkedOrigins(tbl, loaded, opts);
      && AllOk(objs) && MultiplyDefined(final, objs, org, 2, 0)
      && (Written(objs, org, final, out) && |out| == 3 ==>
            !OutputRefersTo(objs, org, out, 0, Text, 0, Address(objs, org, Loc(2, Bss, 0))))
  {
    hide PassOneOk, LinkedTable, LinkedOrigins, WithSymbols, Stray, OnlyDefinition, Rank, Written, OutputRefersTo;
    hide MultiplyDefined, LoadOne, AllOk, LongAt;
    ThreeFiles(a, b, c, x);
    StrayOfThree(a, b, c, x);
    DefinedInLast(a, b, c, x);
    var tbl, objs, loaded := [Sym(x, Bss, 0)], [a, b, c], [a, c];
    FalselyReported(tbl, objs, objs, opts, 2, 0, x);
    if Written(objs, LinkedOrigins(tbl, loaded, opts), LinkedTable(tbl, loaded, opts), out) && |out| == 3 {
      OutputResolves(tbl, objs, objs, opts, out, 0, Text, 0, x, 0, Loc(2, Bss, 0), 0);
    }
  }

  /** Such files. */
  lemma ThereAreSuchFiles(x: string)
    ensures Refers(Object([0, 0, 0, 0], 4, [], 0, [ObjSym(x, true, Undf, 0)], [Reloc(0, false, Extern(0))], []), x)
    ensures OnlyBss(Object([], 0, [], 4, [], [], []))
    ensures InBss(Object([], 0, [], 4, [ObjSym(x, true, Bss, 0)], [], []), x)
  {
    NoBytes([0, 0, 0, 0]);
  }

  lemma NoBytes(s: seq<byte>)
    requires |s| == 4 && forall i :: 0 <= i < 4 ==> s[i] == 0
    ensures LongAt(s, 0) == 0
  {
    var t := s[0..4];
    assert Little(t[1..][1..][1..]) == 0;
    assert Little(t[1..][1..]) == 0;
    assert Little(t[1..]) == 0;
  }
}
