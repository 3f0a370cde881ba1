/**
 * What pass 1 of bin/ld.c decides about a name, told from the objects and names that it comes
 * to: which definition the entry for the name is, or how much common storage, and which
 * library members are loaded.
 */
module LinkHistory {
  import opened LinkPassOne
  import opened LinkArchive
  import opened LinkMiddle
  import opened LinkPassTwo
  import opened Linking

  /** Pass 1 comes to an object, or to a name after `-u` or `-e`. */
  datatype Event = Tried(o: Object, lib: bool) | Named(name: string)
  {
    ghost predicate Ok() {
      Tried? ==> o.Ok()
    }
  }

  /** Something said about a name: a definition at a place, or a reference that asks for so many bytes. */
  datatype Note = Note(kind: Kind, value: int)

  // ----- what is decided about a name

  /** A definition that may take the entry: any, but one in the text only if no common was asked for before. */
  predicate Takes(h: seq<Note>, i: nat)
    requires i < |h|
  {
    h[i].kind != Undf && (h[i].kind == Text ==> forall j :: 0 <= j < i && h[j].kind == Undf ==> h[j].value == 0)
  }

  predicate Untaken(h: seq<Note>) {
    forall i :: 0 <= i < |h| ==> !Takes(h, i)
  }

  /** The first definition that may take the entry. */
  predicate Decides(h: seq<Note>, i: nat) {
    i < |h| && Takes(h, i) && forall j :: 0 <= j < i ==> !Takes(h, j)
  }

  /** The largest size that was asked for. */
  ghost predicate LargestSize(h: seq<Note>, size: int) {
    && (forall i :: 0 <= i < |h| && h[i].kind == Undf ==> h[i].value <= size)
    && Note(Undf, size) in h
  }

  /** The entry for a name of which h has been said. */
  ghost predicate EntryFor(tbl: seq<Sym>, name: string, h: seq<Note>) {
    if h == [] then !Present(tbl, name)
    else
      && Present(tbl, name)
      && var e := tbl[Find(tbl, name)];
      && (forall i: nat :: Decides(h, i) ==> e == Sym(name, h[i].kind, h[i].value))
      && (Untaken(h) ==> e.kind == Undf && LargestSize(h, e.value))
  }

  /** After h this definition counts: the name is known, and it takes the entry. */
  predicate Counts(h: seq<Note>, n: Note) {
    h != [] && Untaken(h) && Takes(h + [n], |h|)
  }

  ghost predicate SizesOk(h: seq<Note>) {
    forall i :: 0 <= i < |h| && h[i].kind == Undf ==> h[i].value >= 0
  }

  lemma {:induction false} TakesSame(h: seq<Note>, more: seq<Note>, i: nat)
    requires i < |h|
    ensures Takes(h + more, i) <==> Takes(h, i)
  {
    assert forall j :: 0 <= j <= i ==> (h + more)[j] == h[j];
  }

  lemma {:induction false} SomeDecides(h: seq<Note>, i: nat)
    requires i < |h| && Takes(h, i)
    ensures exists d: nat :: Decides(h, d)
  {
    if j :| 0 <= j < i && Takes(h, j) {
      SomeDecides(h, j);
    } else {
      assert Decides(h, i);
    }
  }

  /** One thing more is said. */
  lemma {:induction false} UntakenMore(h: seq<Note>, n: Note)
    ensures Untaken(h + [n]) <==> Untaken(h) && !Takes(h + [n], |h|)
    ensures forall i: nat :: Decides(h + [n], i) <==> Decides(h, i) || (i == |h| && Untaken(h) && Takes(h + [n], |h|))
  {
    forall i: nat | i < |h|
      ensures Takes(h + [n], i) <==> Takes(h, i)
    {
      TakesSame(h, [n], i);
    }
  }

  /** A name that has been decided is defined. */
  lemma {:induction false} DecidedOrNot(tbl: seq<Sym>, name: string, h: seq<Note>)
    requires EntryFor(tbl, name, h) && h != []
    ensures Untaken(h) <==> tbl[Find(tbl, name)].kind == Undf
  {
    if !Untaken(h) {
      var i :| 0 <= i < |h| && Takes(h, i);
      SomeDecides(h, i);
      var d: nat :| Decides(h, d);
      assert tbl[Find(tbl, name)] == Sym(name, h[d].kind, h[d].value);
    }
  }

  /** While nothing is decided a definition in the text may take the entry if its size is 0. */
  lemma {:induction false} TakesNext(h: seq<Note>, n: Note, size: int)
    requires SizesOk(h) && LargestSize(h, size) && n.kind != Undf
    ensures Takes(h + [n], |h|) <==> !(size != 0 && n.kind == Text)
  {
    var s := h + [n];
    assert forall j :: 0 <= j < |h| ==> s[j] == h[j];
    var j :| 0 <= j < |h| && h[j] == Note(Undf, size);
    assert s[j] == Note(Undf, size);
  }

  lemma {:induction false} LargestMore(h: seq<Note>, n: Note, size: int)
    requires LargestSize(h, size)
    ensures LargestSize(h + [n], if n.kind == Undf then Max(n.value, size) else size)
  {
    var s := h + [n];
    assert s[|h|] == n && forall j :: 0 <= j < |h| ==> s[j] == h[j];
    var j :| 0 <= j < |h| && h[j] == Note(Undf, size);
    assert s[j] == Note(Undf, size);
  }

  // ----- one symbol

  /** The entry of another name, and the entry as it is added or replaced. */
  lemma {:induction false} MergeAt(tbl: seq<Sym>, s: ObjSym, name: string)
    requires Distinct(tbl)
    ensures var i, t := Find(tbl, s.name), Merge(tbl, s).0;
      && Distinct(t) && |tbl| <= |t|
      && (name != s.name ==> (Present(t, name) <==> Present(tbl, name)))
      && (name != s.name && Present(tbl, name) ==> t[Find(t, name)] == tbl[Find(tbl, name)])
      && Present(t, s.name) && Find(t, s.name) == i
  {
    MergeFollows(tbl, s);
    var t := Merge(tbl, s).0;
    if Present(tbl, name) {
      FindSame(tbl, t, name);
    }
    if Present(tbl, s.name) {
      FindSame(tbl, t, s.name);
    }
    if name != s.name && Present(t, name) {
      MergeEntries(tbl, s, Find(t, name));
    }
  }

  lemma {:induction false} SaidOfAnother(tbl: seq<Sym>, s: ObjSym, name: string, h: seq<Note>)
    requires Distinct(tbl) && EntryFor(tbl, name, h) && s.name != name
    ensures EntryFor(Merge(tbl, s).0, name, h)
  {
    hide Merge;
    MergeAt(tbl, s, name);
  }

  lemma {:induction false} SaidFirst(tbl: seq<Sym>, s: ObjSym)
    requires Distinct(tbl) && !Present(tbl, s.name)
    ensures EntryFor(Merge(tbl, s).0, s.name, [Note(s.kind, s.value)]) && !Merge(tbl, s).1
  {
    var n := Note(s.kind, s.value);
    MergeAt(tbl, s, s.name);
    UntakenMore([], n);
    assert [] + [n] == [n] && forall i: nat :: !Decides([], i);
    assert n in [n] && forall i: nat :: Decides([n], i) ==> i == 0;
    assert Merge(tbl, s).0[|tbl|] == Sym(s.name, s.kind, s.value);
  }

  /** A symbol of an object is looked up and merged, after h has been said of its name. */
  lemma {:induction false} SaidOnce(tbl: seq<Sym>, s: ObjSym, h: seq<Note>)
    requires Distinct(tbl) && EntryFor(tbl, s.name, h) && SizesOk(h)
    ensures EntryFor(Merge(tbl, s).0, s.name, h + [Note(s.kind, s.value)])
    ensures Merge(tbl, s).1 <==> Counts(h, Note(s.kind, s.value))
  {
    hide Takes, LargestSize, Untaken, Decides;
    var n := Note(s.kind, s.value);
    if h == [] {
      SaidFirst(tbl, s);
      assert h + [n] == [n];
    } else {
      MergeAt(tbl, s, s.name);
      UntakenMore(h, n);
      DecidedOrNot(tbl, s.name, h);
      var size := tbl[Find(tbl, s.name)].value;
      if Untaken(h) {
        LargestMore(h, n, size);
        NothingTaken(h, n);
        if n.kind != Undf {
          TakesNext(h, n, size);
        }
      } else {
        NotEmpty(h);
      }
    }
  }

  /** A reference takes nothing. */
  lemma {:induction false} NothingTaken(h: seq<Note>, n: Note)
    requires Untaken(h)
    ensures n.kind == Undf ==> !Takes(h + [n], |h|)
    ensures forall i: nat :: !Decides(h, i)
  {
  }

  lemma {:induction false} NotEmpty(h: seq<Note>)
    requires !Untaken(h)
    ensures exists d: nat :: Decides(h, d)
    ensures forall d: nat :: Decides(h, d) ==> d < |h|
  {
    var i :| 0 <= i < |h| && Takes(h, i);
    SomeDecides(h, i);
  }

  // ----- one object

  /** What the first k symbols of o say about a name, when the objects in `loaded` have been loaded before. */
  function Says(loaded: seq<Object>, o: Object, k: nat, name: string): seq<Note>
    requires k <= |o.syms|
  {
    if k == 0 then []
    else
      var front := Says(loaded, o, k - 1, name);
      var s := Placed(loaded, o, k - 1);
      if s.ext && s.name == name then front + [Note(s.kind, s.value)] else front
  }

  /** The table and the definitions counted after the first k symbols of o. */
  function MergedInto(tbl: seq<Sym>, loaded: seq<Object>, o: Object, k: nat): (seq<Sym>, nat)
    requires k <= |o.syms|
  {
    var m := |loaded|;
    MergeFirst(tbl, o, k, TextBefore(loaded, m), DataBefore(loaded, m), BssBefore(loaded, m))
  }

  lemma {:induction false} MergedIntoNext(tbl: seq<Sym>, loaded: seq<Object>, o: Object, k: nat)
    requires k < |o.syms|
    ensures var (before, n) := MergedInto(tbl, loaded, o, k);
      var m := Merge(before, Placed(loaded, o, k));
      MergedInto(tbl, loaded, o, k + 1) ==
        if o.syms[k].ext then (m.0, if m.1 then n + 1 else n) else (before, n)
  {
    hide Merge;
  }

  lemma {:induction false} SaidByObject(tbl: seq<Sym>, loaded: seq<Object>, o: Object, k: nat, name: string,
    h: seq<Note>)
    requires Distinct(tbl) && EntryFor(tbl, name, h) && SizesOk(h) && o.Ok() && k <= |o.syms|
    ensures var t, said := MergedInto(tbl, loaded, o, k).0, h + Says(loaded, o, k, name);
      Distinct(t) && EntryFor(t, name, said) && SizesOk(said)
  {
    hide Merge, MergedInto, EntryFor, Distinct;
    if k == 0 {
      assert MergedInto(tbl, loaded, o, 0).0 == tbl by {
        NothingMerged(tbl, loaded, o);
      }
      assert h + [] == h;
    } else {
      SaidByObject(tbl, loaded, o, k - 1, name, h);
      MergedIntoNext(tbl, loaded, o, k - 1);
      var before, said := MergedInto(tbl, loaded, o, k - 1).0, h + Says(loaded, o, k - 1, name);
      var s := Placed(loaded, o, k - 1);
      if s.ext {
        MergeAt(before, s, name);
        if s.name == name {
          SaidOnce(before, s, said);
          assert h + (Says(loaded, o, k - 1, name) + [Note(s.kind, s.value)]) == said + [Note(s.kind, s.value)];
        } else {
          SaidOfAnother(before, s, name, said);
        }
      }
    }
  }

  lemma NothingMerged(tbl: seq<Sym>, loaded: seq<Object>, o: Object)
    ensures MergedInto(tbl, loaded, o, 0) == (tbl, 0)
  {
  }

  // ----- a run

  /** The objects loaded so far, and all that has been said of every name. */
  datatype History = History(loaded: seq<Object>, said: string -> seq<Note>)

  /** What has been said of the name of symbol k when its turn comes. */
  function Before(h: History, o: Object, k: nat): seq<Note>
    requires k < |o.syms|
  {
    h.said(o.syms[k].name) + Says(h.loaded, o, k, o.syms[k].name)
  }

  predicate CountsAt(h: History, o: Object, k: nat)
    requires k < |o.syms|
  {
    var s := Placed(h.loaded, o, k);
    s.ext && Counts(Before(h, o, k), Note(s.kind, s.value))
  }

  /** The library member has a definition that counts. */
  predicate Useful(h: History, o: Object) {
    exists k :: 0 <= k < |o.syms| && CountsAt(h, o, k)
  }

  /** An object that is loaded: any file with symbols, but only the useful members of libraries. */
  predicate Kept(h: History, o: Object, lib: bool) {
    o.syms != [] && (lib ==> Useful(h, o))
  }

  /**
   * One event more. What a useless member says of a new name is forgotten with it; but what it
   * says of a known one stays.
   */
  function Next(h: History, e: Event): History {
    match e
    case Named(x) => h.(said := name => if name == x then h.said(name) + [Note(Undf, 0)] else h.said(name))
    case Tried(o, lib) =>
      var kept := Kept(h, o, lib);
      History(if kept then h.loaded + [o] else h.loaded,
              name => if kept || h.said(name) != [] then h.said(name) + Says(h.loaded, o, |o.syms|, name) else [])
  }

  function HistoryOf(events: seq<Event>): History {
    if events == [] then History([], name => []) else Next(HistoryOf(events[..|events| - 1]), events[|events| - 1])
  }

  /** Pass 1, which goes on as long as nothing has gone wrong. */
  function RunOf(events: seq<Event>): State {
    if events == [] then Start
    else
      var st := RunOf(events[..|events| - 1]);
      if !st.fate.Fine? then st
      else match events[|events| - 1]
        case Tried(o, lib) => LoadOne(st, o, lib)
        case Named(name) => Mention(st, name)
  }

  // ----- what a run remembers

  ghost predicate Remembered(tbl: seq<Sym>, h: History) {
    forall name :: EntryFor(tbl, name, h.said(name)) && SizesOk(h.said(name))
  }

  lemma {:induction false} RememberedName(tbl: seq<Sym>, h: History, name: string)
    requires Remembered(tbl, h)
    ensures EntryFor(tbl, name, h.said(name)) && SizesOk(h.said(name))
  {
  }

  /** A definition is counted among the first k symbols of o if and only if one of them counts. */
  lemma {:induction false} CountedIn(h: History, tbl: seq<Sym>, o: Object, k: nat)
    requires Distinct(tbl) && Remembered(tbl, h) && o.Ok() && k <= |o.syms|
    ensures MergedInto(tbl, h.loaded, o, k).1 != 0 <==> exists j :: 0 <= j < k && CountsAt(h, o, j)
  {
    hide Merge, MergedInto, EntryFor, Distinct, Remembered, Counts, Says;
    if k == 0 {
      NothingMerged(tbl, h.loaded, o);
    } else {
      CountedIn(h, tbl, o, k - 1);
      MergedIntoNext(tbl, h.loaded, o, k - 1);
      var s := Placed(h.loaded, o, k - 1);
      RememberedName(tbl, h, s.name);
      SaidByObject(tbl, h.loaded, o, k - 1, s.name, h.said(s.name));
      if s.ext {
        SaidOnce(MergedInto(tbl, h.loaded, o, k - 1).0, s, Before(h, o, k - 1));
      }
      var some := exists j :: 0 <= j < k - 1 && CountsAt(h, o, j);
      assert (exists j :: 0 <= j < k && CountsAt(h, o, j)) <==> some || CountsAt(h, o, k - 1);
    }
  }

  /** What `load1` leaves in the table, and whether the object is loaded. */
  lemma {:induction false} TableAfter(st: State, o: Object, lib: bool)
    requires st.Ok() && LoadOne(st, o, lib).fate.Fine?
    ensures var now, m := LoadOne(st, o, lib), MergedInto(st.table, st.loaded, o, |o.syms|);
      && |st.table| <= |m.0|
      && (o.syms == [] ==> now.table == st.table && now.loaded == st.loaded)
      && (o.syms != [] && (!lib || m.1 != 0) ==> now.table == m.0 && now.loaded == st.loaded + [o])
      && (o.syms != [] && lib && m.1 == 0 ==> now.table == m.0[..|st.table|] && now.loaded == st.loaded)
  {
    hide PassOneOk, MergeFirst;
  }

  /** Cutting the table back forgets the new names only. */
  lemma {:induction false} CutEntry(tbl: seq<Sym>, t: seq<Sym>, def: bool, name: string, h: seq<Note>,
    said: seq<Note>)
    requires Distinct(tbl) && Distinct(t) && Follows(tbl, t, def)
    requires EntryFor(tbl, name, h) && EntryFor(t, name, said) && (h != [] ==> said != [])
    ensures EntryFor(t[..|tbl|], name, if h != [] then said else h)
  {
    var cut := t[..|tbl|];
    hide Untaken, Decides, LargestSize;
    if h != [] {
      FindSame(tbl, t, name);
      FindSame(tbl, cut, name);
    } else {
      forall i | 0 <= i < |cut|
        ensures cut[i].name != name
      {
        assert tbl[i].name == cut[i].name;
      }
    }
  }

  lemma {:induction false} AfterTried(h: History, st: State, o: Object, lib: bool)
    requires st.Ok() && Remembered(st.table, h) && st.loaded == h.loaded && o.Ok()
    requires LoadOne(st, o, lib).fate.Fine?
    ensures var now, more := LoadOne(st, o, lib), Next(h, Tried(o, lib));
      now.loaded == more.loaded && Remembered(now.table, more)
  {
    hide LoadOne, PassOneOk, MergedInto, EntryFor, SizesOk, Says, Follows;
    var now, more := LoadOne(st, o, lib), Next(h, Tried(o, lib));
    StateFacts(st);
    TableAfter(st, o, lib);
    CountedIn(h, st.table, o, |o.syms|);
    MidwayFollows(st, o);
    var m := MergedInto(st.table, st.loaded, o, |o.syms|);
    forall name
      ensures EntryFor(now.table, name, more.said(name)) && SizesOk(more.said(name))
    {
      var was := h.said(name);
      RememberedName(st.table, h, name);
      SaidByObject(st.table, st.loaded, o, |o.syms|, name, was);
      var said := was + Says(st.loaded, o, |o.syms|, name);
      if o.syms == [] {
        SaysNothing(st.loaded, o, name);
        assert said == was;
      } else if !Kept(h, o, lib) {
        CutEntry(st.table, m.0, m.1 != 0, name, was, said);
      }
    }
  }

  lemma SaysNothing(loaded: seq<Object>, o: Object, name: string)
    ensures Says(loaded, o, 0, name) == []
  {
  }

  lemma {:induction false} MidwayFollows(st: State, o: Object)
    requires st.Ok()
    ensures var m := MergedInto(st.table, st.loaded, o, |o.syms|);
      Distinct(m.0) && Follows(st.table, m.0, m.1 != 0)
  {
    var n := |st.loaded|;
    MergeFirstFollows(st.table, o, |o.syms|, TextBefore(st.loaded, n), DataBefore(st.loaded, n),
                      BssBefore(st.loaded, n));
  }

  lemma {:induction false} AfterNamed(h: History, st: State, x: string)
    requires st.Ok() && Remembered(st.table, h) && st.loaded == h.loaded
    ensures var now, more := Mention(st, x), Next(h, Named(x));
      now.loaded == more.loaded && Remembered(now.table, more)
  {
    hide PassOneOk, EntryFor, SizesOk, Merge;
    var s, more := ObjSym(x, true, Undf, 0), Next(h, Named(x));
    StateFacts(st);
    MentionMerges(st, x);
    forall name
      ensures EntryFor(Mention(st, x).table, name, more.said(name)) && SizesOk(more.said(name))
    {
      RememberedName(st.table, h, name);
      SizesMore(h.said(name));
      if name == x {
        SaidOnce(st.table, s, h.said(x));
      } else {
        SaidOfAnother(st.table, s, name, h.said(name));
      }
    }
  }

  lemma SizesMore(h: seq<Note>)
    requires SizesOk(h)
    ensures SizesOk(h + [Note(Undf, 0)])
  {
  }

  /** To mention a name is to merge a reference to it. */
  lemma {:induction false} MentionMerges(st: State, x: string)
    requires st.Ok()
    ensures Mention(st, x).table == Merge(st.table, ObjSym(x, true, Undf, 0)).0
  {
    var i := Find(st.table, x);
    if i < |st.table| {
      assert SizeKnown(st.seen, st.table[i]);
      assert st.table[i := st.table[i]] == st.table;
    }
  }

  /**
   * Over any sequence of objects, files and library members, and of names: as long as nothing
   * has gone wrong, the objects loaded are the files with symbols and the useful members, and
   * the entry for every name is what has been said of it decides.
   */
  lemma {:induction false} HistoryDecides(events: seq<Event>)
    requires (forall i :: 0 <= i < |events| ==> events[i].Ok()) && RunOf(events).fate.Fine?
    ensures RunOf(events).Ok() && RunOf(events).loaded == HistoryOf(events).loaded
    ensures Remembered(RunOf(events).table, HistoryOf(events))
  {
    hide PassOneOk, LoadOne, Mention, Remembered, EntryFor, Next, State.Ok;
    if events == [] {
      StartOk();
      NothingHeard();
    } else {
      var front, e := events[..|events| - 1], events[|events| - 1];
      HistoryDecides(front);
      assert e.Ok();
      match e {
        case Tried(o, lib) =>
          LoadOneKeeps(RunOf(front), o, lib);
          AfterTried(HistoryOf(front), RunOf(front), o, lib);
        case Named(x) =>
          MentionKeeps(RunOf(front), x);
          AfterNamed(HistoryOf(front), RunOf(front), x);
      }
    }
  }

  lemma NothingHeard()
    ensures Remembered(Start.table, HistoryOf([])) && HistoryOf([]).loaded == []
  {
  }

  // ----- in particular

  /** A definition that decides takes the entry, whatever is said before and after it. */
  lemma {:induction false} DecidingDefinition(events: seq<Event>, name: string, i: nat)
    requires (forall i :: 0 <= i < |events| ==> events[i].Ok()) && RunOf(events).fate.Fine?
    requires Decides(HistoryOf(events).said(name), i)
    ensures var tbl, n := RunOf(events).table, HistoryOf(events).said(name)[i];
      Present(tbl, name) && tbl[Find(tbl, name)] == Sym(name, n.kind, n.value)
  {
    hide Decides;
    HistoryDecides(events);
    RememberedName(RunOf(events).table, HistoryOf(events), name);
    assert HistoryOf(events).said(name) != [] by {
      SomethingDecides(HistoryOf(events).said(name), i);
    }
  }

  lemma SomethingDecides(h: seq<Note>, i: nat)
    requires Decides(h, i)
    ensures i < |h|
  {
  }

  /** A library member with a single definition. */
  predicate Single(o: Object, name: string, kind: Kind) {
    |o.syms| == 1 && o.syms[0].ext && o.syms[0].name == name && o.syms[0].kind == kind != Undf
  }

  /** What is said of a name is that it is common. */
  predicate CommonSo(h: seq<Note>) {
    Untaken(h) && exists i :: 0 <= i < |h| && h[i].kind == Undf && h[i].value > 0
  }

  /**
   * A library member that defines a common, and nothing else, is loaded, and its definition takes
   * the place of the common, if and only if the definition is not in the text.
   */
  lemma {:induction false} CommonOverridden(events: seq<Event>, o: Object, name: string, kind: Kind)
    requires (forall i :: 0 <= i < |events| ==> events[i].Ok()) && RunOf(events).fate.Fine?
    requires o.Ok() && Single(o, name, kind) && CommonSo(HistoryOf(events).said(name))
    ensures var st, now := RunOf(events), RunOf(events + [Tried(o, true)]);
      && Present(st.table, name) && Present(now.table, name) && now.fate.Fine?
      && now.loaded == st.loaded + (if kind == Text then [] else [o])
      && now.table[Find(now.table, name)].kind == if kind == Text then Undf else kind
  {
    hide PassOneOk, LoadOne, Merge, State.Ok, EntryFor, Decides, LargestSize, Next;
    var h := HistoryOf(events);
    var more, st := events + [Tried(o, true)], RunOf(events);
    assert more[..|events|] == events;
    HistoryDecides(events);
    StateFacts(st);
    RememberedName(st.table, h, name);
    KnownName(st.table, name, h.said(name));
    FineUnlessStale(st, o, true);
    HistoryDecides(more);
    RememberedName(RunOf(more).table, HistoryOf(more), name);
    SaidBySingle(h, o, name, kind);
    KnownName(RunOf(more).table, name, HistoryOf(more).said(name));
  }

  /** What the entry for a name is, as far as its kind goes. */
  lemma {:induction false} KnownName(tbl: seq<Sym>, name: string, h: seq<Note>)
    requires EntryFor(tbl, name, h) && h != []
    ensures Present(tbl, name) && (Untaken(h) ==> tbl[Find(tbl, name)].kind == Undf)
    ensures !Untaken(h) && Untaken(h[..|h| - 1]) ==> tbl[Find(tbl, name)].kind == h[|h| - 1].kind
  {
    hide LargestSize;
    var front, n := h[..|h| - 1], h[|h| - 1];
    if !Untaken(h) && Untaken(front) {
      assert front + [n] == h;
      UntakenMore(front, n);
      assert Decides(h, |h| - 1);
    }
  }

  lemma {:induction false} SaidBySingle(h: History, o: Object, name: string, kind: Kind)
    requires Single(o, name, kind) && CommonSo(h.said(name))
    ensures var now, said := Next(h, Tried(o, true)), h.said(name);
      && now.loaded == h.loaded + (if kind == Text then [] else [o])
      && said != [] && now.said(name) != [] && now.said(name)[..|said|] == said
      && |now.said(name)| == |said| + 1 && now.said(name)[|said|].kind == kind
      && (Untaken(now.said(name)) <==> kind == Text)
  {
    var said, s := h.said(name), Placed(h.loaded, o, 0);
    var n := Note(s.kind, s.value);
    assert Says(h.loaded, o, 0, name) == [];
    assert Says(h.loaded, o, 1, name) == [n];
    UntakenMore(said, n);
    var i :| 0 <= i < |said| && said[i].kind == Undf && said[i].value > 0;
    assert (said + [n])[i] == said[i];
    assert Takes(said + [n], |said|) <==> kind != Text;
    assert Before(h, o, 0) == said;
    assert CountsAt(h, o, 0) <==> kind != Text;
    assert Useful(h, o) <==> kind != Text;
    hide Untaken, Takes, Useful;
    assert Kept(h, o, true) <==> kind != Text;
    assert Next(h, Tried(o, true)).said(name) == said + [n];
  }

  // ----- a whole link

  /** What an argument comes to; for a library with a contents table, some of its members. */
  ghost predicate FromArg(arg: Arg, es: seq<Event>) {
    match arg
    case File(o) => es == [Tried(o, false)]
    case Want(name) => es == [Named(name)]
    case Members(members) => es == AllTried(members, |members|)
    case Library(_, archive) => forall i :: 0 <= i < |es| ==> es[i].Tried? && es[i].lib && es[i].o in archive.Values
  }

  function AllTried(members: seq<Object>, n: nat): seq<Event>
    requires n <= |members|
  {
    if n == 0 then [] else AllTried(members, n - 1) + [Tried(members[n - 1], true)]
  }

  ghost predicate AllEventsOk(es: seq<Event>) {
    forall i :: 0 <= i < |es| ==> es[i].Ok()
  }

  lemma {:induction false} RunMore(events: seq<Event>, e: Event)
    requires RunOf(events).fate.Fine?
    ensures RunOf(events + [e]) ==
      match e case Tried(o, lib) => LoadOne(RunOf(events), o, lib) case Named(name) => Mention(RunOf(events), name)
  {
    hide LoadOne, Mention;
    assert (events + [e])[..|events|] == events;
  }

  lemma {:induction false} MembersRun(events: seq<Event>, members: seq<Object>, n: nat)
    requires n <= |members| && AllOk(members) && LoadMembers(RunOf(events), members, n).fate.Fine?
    ensures RunOf(events + AllTried(members, n)) == LoadMembers(RunOf(events), members, n)
    ensures AllEventsOk(AllTried(members, n))
  {
    hide LoadOne;
    if n == 0 {
      assert events + [] == events;
    } else {
      MembersRun(events, members, n - 1);
      RunMore(events + AllTried(members, n - 1), Tried(members[n - 1], true));
      assert events + AllTried(members, n) == events + AllTried(members, n - 1) + [Tried(members[n - 1], true)];
      assert ObjectOk(members[n - 1]);
    }
  }

  /** From the archive come only its members. */
  ghost predicate FromArchive(archive: Archive, es: seq<Event>) {
    AllEventsOk(es) && forall i :: 0 <= i < |es| ==> es[i].Tried? && es[i].lib && es[i].o in archive.Values
  }

  /** A pass over the table of contents is a run over some of the members. */
  lemma {:induction false} PassRun(events: seq<Event>, tab: seq<TocEntry>, archive: Archive, tp: nat)
    returns (es: seq<Event>)
    requires tp <= |tab| && ArchiveOk(archive) && RunOf(events).Ok() && !RunOf(events).Stale()
    ensures FromArchive(archive, es) && RunOf(events + es) == PassFrom(RunOf(events), tab, archive, tp)
    ensures RunOf(events + es).Ok() && !RunOf(events + es).Stale()
    decreases |tab| - tp
  {
    hide PassOneOk, LoadOne, Names, AllNames, State.Ok;
    var st := RunOf(events);
    StateFacts(st);
    es := [];
    assert events + es == events;
    if tp < |tab| {
      var off := tab[tp].off;
      var sp := Find(st.table, tab[tp].name);
      if sp == |st.table| || st.table[sp].kind != Undf {
        es := PassRun(events, tab, archive, tp + 1);
      } else {
        StepSettles(st, archive, off);
        StateFacts(StepState(st, archive, off));
        var first := if off in archive then [Tried(archive[off], true)] else [];
        if off in archive {
          RunMore(events, Tried(archive[off], true));
          assert archive[off] in archive.Values;
        }
        var rest := PassRun(events + first, tab, archive, Skip(tab, tp + 1, off));
        es := first + rest;
        assert events + es == events + first + rest;
      }
    }
  }

  lemma {:induction false} PassesRun(events: seq<Event>, tab: seq<TocEntry>, archive: Archive, n: nat)
    returns (es: seq<Event>)
    requires ArchiveOk(archive) && RunOf(events).Ok() && !RunOf(events).Stale()
    ensures FromArchive(archive, es) && RunOf(events + es) == Passes(RunOf(events), tab, archive, n)
    ensures RunOf(events + es).Ok() && !RunOf(events + es).Stale()
  {
    hide State.Ok, PassFrom, State.Stale;
    es := [];
    assert events + es == events;
    if n > 0 {
      es := PassesRun(events, tab, archive, n - 1);
      var rest := PassRun(events + es, tab, archive, 0);
      assert events + (es + rest) == events + es + rest;
      es := es + rest;
    }
  }

  lemma {:induction false} ArgIsRun(events: seq<Event>, arg: Arg, after: State) returns (es: seq<Event>)
    requires RunOf(events).Ok() && arg.Ok() && ArgRun(RunOf(events), arg, after) && after.fate.Fine?
    ensures FromArg(arg, es) && AllEventsOk(es) && RunOf(events + es) == after
  {
    hide PassOneOk, LoadOne, Mention, PassFrom, State.Ok;
    var st := RunOf(events);
    StateFacts(st);
    match arg {
      case File(o) =>
        es := [Tried(o, false)];
        RunMore(events, es[0]);
      case Want(name) =>
        es := [Named(name)];
        RunMore(events, es[0]);
      case Members(members) =>
        es := AllTried(members, |members|);
        MembersRun(events, members, |members|);
      case Library(tab, archive) =>
        ArchiveFits(archive);
        var n: nat :| Settles(st, tab, archive, n) && after == Passes(st, tab, archive, n);
        es := PassesRun(events, tab, archive, n);
    }
  }

  /** What the first n arguments come to, each in its turn. */
  ghost predicate FromArgs(args: seq<Arg>, n: nat, events: seq<Event>)
    requires n <= |args|
  {
    if n == 0 then events == []
    else exists m :: 0 <= m <= |events| && FromArg(args[n - 1], events[m..]) && FromArgs(args, n - 1, events[..m])
  }

  lemma {:induction false} ArgsAreRun(args: seq<Arg>, states: seq<State>, n: nat) returns (events: seq<Event>)
    requires Trace(args, states) && (forall i :: 0 <= i < |args| ==> args[i].Ok()) && n <= |args|
    requires states[n].fate.Fine?
    ensures FromArgs(args, n, events) && AllEventsOk(events) && RunOf(events) == states[n] && states[n].Ok()
  {
    hide PassOneOk, State.Ok, FromArg, LoadOne, Mention;
    events := [];
    if n == 0 {
      StartOk();
    } else {
      assert ArgRun(states[n - 1], args[n - 1], states[n]);
      var front := ArgsAreRun(args, states, n - 1);
      var es := ArgIsRun(front, args[n - 1], states[n]);
      events := front + es;
      assert events[|front|..] == es && events[..|front|] == front;
      HistoryDecides(events);
    }
  }

  /**
   * Pass 1 of a link, as long as nothing goes wrong: there is an account of what the arguments
   * came to, one after the other, by which the objects were loaded and every entry decided.
   */
  lemma {:induction false} LinkDecides(args: seq<Arg>, states: seq<State>) returns (events: seq<Event>)
    requires Trace(args, states) && (forall i :: 0 <= i < |args| ==> args[i].Ok())
    requires states[|args|].fate.Fine?
    ensures FromArgs(args, |args|, events)
    ensures states[|args|].loaded == HistoryOf(events).loaded
    ensures forall name :: EntryFor(states[|args|].table, name, HistoryOf(events).said(name))
  {
    hide EntryFor, FromArg;
    events := ArgsAreRun(args, states, |args|);
    HistoryDecides(events);
    forall name
      ensures EntryFor(states[|args|].table, name, HistoryOf(events).said(name))
    {
      RememberedName(states[|args|].table, HistoryOf(events), name);
    }
  }

  /** The finished table and the origins of a link are those that the table of pass 1 calls for. */
  lemma {:induction false} LinkMiddled(args: seq<Arg>, states: seq<State>, opts: Options, objs: seq<Object>,
    final: seq<Sym>, org: Origins)
    requires Linked(args, states, opts, objs, final, org)
    ensures var st := states[|args|];
      var n := |st.loaded|;
      Middled(st.table, opts, TextBefore(st.loaded, n), DataBefore(st.loaded, n), BssBefore(st.loaded, n), final, org,
              opts.rflag || Incomplete(st.table))
  {
    hide PassOneOk, FinalTable, OriginsFor, Middled;
    var st := states[|args|];
    var n := |st.loaded|;
    StateFacts(st);
    MissingIsLacking(st.table);
    MiddleIsRight(st.table, opts, TextBefore(st.loaded, n), DataBefore(st.loaded, n), BssBefore(st.loaded, n));
  }
}
