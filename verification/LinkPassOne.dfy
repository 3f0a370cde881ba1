/**
 * Pass 1 of bin/ld.c: `load1` merges the external symbols of one object after another
 * into the symbol table, and adds up the sizes of the segments. A library member that
 * defines nothing wanted is backed out again.
 */
module LinkPassOne {
  import SymbolTable

  type byte = x: int | 0 <= x < 256

  datatype Kind = Undf | Abs | Text | Data | Bss | Comm

  // Comm appears only in the symbol table, between the two halves of `middle`.

  /** An entry of an object's symbol list; `value` is a size for undefined symbols (commons). */
  datatype ObjSym = ObjSym(name: string, ext: bool, kind: Kind, value: int)

  /** A relocation of a long word at offset `addr` of its segment. */
  datatype Reloc = Reloc(addr: nat, pcrel: bool, target: Target)

  datatype Target = Extern(symno: nat) | Local(kind: Kind)

  /** An object: its text begins at address 0, its data at `dataStart`, its bss right after the data. */
  datatype Object = Object(text: seq<byte>, dataStart: nat, data: seq<byte>, bss: nat,
                           syms: seq<ObjSym>, treloc: seq<Reloc>, dreloc: seq<Reloc>)
  {
    predicate Ok() {
      && dataStart >= |text|
      && (syms == [] ==> text == [] && data == [])   // otherwise ld gives up: no namelist
      && forall k :: 0 <= k < |syms| ==> syms[k].kind != Comm && (syms[k].kind == Undf ==> syms[k].value >= 0)
    }
  }

  /** A symbol table entry. */
  datatype Sym = Sym(name: string, kind: Kind, value: int)

  function Max(a: int, b: int): int {
    if a > b then a else b
  }

  /** Round up to a multiple of 4, as `round(v, sizeof (long))`. */
  function RoundLong(v: int): (r: int)
    ensures v <= r < v + 4 && r % 4 == 0
  {
    (v + 3) / 4 * 4
  }

  // ----- the symbol table as a list

  ghost predicate Distinct(tbl: seq<Sym>) {
    forall i, j :: 0 <= i < j < |tbl| ==> tbl[i].name != tbl[j].name
  }

  /** The index of the entry for `name`, or the length of the table. */
  function Find(tbl: seq<Sym>, name: string): (i: nat)
    ensures i <= |tbl|
    ensures i < |tbl| ==> tbl[i].name == name
    ensures forall j :: 0 <= j < i ==> tbl[j].name != name
  {
    if tbl == [] then 0
    else
      var i := Find(tbl[..|tbl| - 1], name);
      if i < |tbl| - 1 then i else if tbl[|tbl| - 1].name == name then |tbl| - 1 else |tbl|
  }

  // ----- the segment sizes

  function TextBefore(objs: seq<Object>, m: nat): nat
    requires m <= |objs|
  {
    if m == 0 then 0 else TextBefore(objs, m - 1) + |objs[m - 1].text|
  }

  function DataBefore(objs: seq<Object>, m: nat): nat
    requires m <= |objs|
  {
    if m == 0 then 0 else DataBefore(objs, m - 1) + RoundLong(|objs[m - 1].data|)
  }

  function BssBefore(objs: seq<Object>, m: nat): nat
    requires m <= |objs|
  {
    if m == 0 then 0 else BssBefore(objs, m - 1) + RoundLong(objs[m - 1].bss)
  }

  /** What `symreloc` adds, given where the object's three segments begin: ctrel, cdrel or cbrel. */
  function Displacement(o: Object, kind: Kind, t: int, d: int, b: int): int {
    match kind
    case Text => t
    case Data => d - o.dataStart
    case Bss => b - o.dataStart - |o.data|
    case _ => 0
  }

  function Relocated(o: Object, s: ObjSym, t: int, d: int, b: int): ObjSym {
    s.(value := s.value + Displacement(o, s.kind, t, d, b))
  }

  // ----- merging one symbol

  /**
   * The table after one external symbol was looked up and entered or merged, and whether it
   * counted as a definition.
   */
  function Merge(tbl: seq<Sym>, s: ObjSym): (r: (seq<Sym>, bool))
    ensures |tbl| <= |r.0|
  {
    var i := Find(tbl, s.name);
    if i == |tbl| then (tbl + [Sym(s.name, s.kind, s.value)], false)
    else if tbl[i].kind != Undf then (tbl, false)
    else if s.kind == Undf then (tbl[i := tbl[i].(value := Max(s.value, tbl[i].value))], false)
    else if tbl[i].value != 0 && s.kind == Text then (tbl, false)
    else (tbl[i := Sym(s.name, s.kind, s.value)], true)
  }

  /** The table and the number of definitions counted after the first k symbols of an object. */
  function MergeFirst(tbl: seq<Sym>, o: Object, k: nat, t: int, d: int, b: int): (r: (seq<Sym>, nat))
    requires k <= |o.syms|
    ensures |tbl| <= |r.0|
  {
    if k == 0 then (tbl, 0)
    else
      var (before, n) := MergeFirst(tbl, o, k - 1, t, d, b);
      var s := o.syms[k - 1];
      if !s.ext then (before, n)
      else
        var (after, def) := Merge(before, Relocated(o, s, t, d, b));
        (after, if def then n + 1 else n)
  }

  // ----- what pass 1 keeps

  /** Symbol k of object m defines `name`. */
  predicate Defines(objs: seq<Object>, m: nat, k: nat, name: string) {
    && m < |objs| && k < |objs[m].syms|
    && objs[m].syms[k].ext && objs[m].syms[k].kind != Undf && objs[m].syms[k].name == name
  }

  /** Symbol k of object m asks for common storage of `value` bytes for `name`. */
  predicate IsCommon(objs: seq<Object>, m: nat, k: nat, name: string, value: int) {
    && m < |objs| && k < |objs[m].syms|
    && objs[m].syms[k].ext && objs[m].syms[k].kind == Undf && objs[m].syms[k].name == name
    && objs[m].syms[k].value == value > 0
  }

  /** The value pass 1 computes for symbol k of object m: relative to the start of its output segment. */
  function OffsetOf(objs: seq<Object>, m: nat, k: nat): int
    requires m < |objs| && k < |objs[m].syms|
  {
    Relocated(objs[m], objs[m].syms[k], TextBefore(objs, m), DataBefore(objs, m), BssBefore(objs, m)).value
  }

  ghost predicate ComesFrom(objs: seq<Object>, e: Sym, m: nat, k: nat) {
    Defines(objs, m, k, e.name) && e.kind == objs[m].syms[k].kind && e.value == OffsetOf(objs, m, k)
  }

  ghost predicate Justified(objs: seq<Object>, e: Sym) {
    e.kind != Undf ==> exists m: nat, k: nat :: ComesFrom(objs, e, m, k)
  }

  /** The name has an entry that is defined, or is a common. */
  ghost predicate Satisfied(tbl: seq<Sym>, name: string) {
    var i := Find(tbl, name);
    i < |tbl| && (tbl[i].kind != Undf || tbl[i].value != 0)
  }

  ghost predicate SizeKnown(objs: seq<Object>, e: Sym) {
    e.kind == Undf ==>
      e.value >= 0 && (e.value > 0 ==> exists m: nat, k: nat :: IsCommon(objs, m, k, e.name, e.value))
  }

  ghost predicate AllJustified(tbl: seq<Sym>, objs: seq<Object>) {
    forall i :: 0 <= i < |tbl| ==> Justified(objs, tbl[i])
  }

  ghost predicate AllSizesKnown(tbl: seq<Sym>, objs: seq<Object>) {
    forall i :: 0 <= i < |tbl| ==> SizeKnown(objs, tbl[i])
  }

  ghost predicate AllSatisfied(tbl: seq<Sym>, objs: seq<Object>) {
    forall m, k :: 0 <= m < |objs| && 0 <= k < |objs[m].syms| && Defines(objs, m, k, objs[m].syms[k].name) ==>
      Satisfied(tbl, objs[m].syms[k].name)
  }

  /** Every external name of a loaded object has an entry. */
  ghost predicate AllPresent(tbl: seq<Sym>, objs: seq<Object>) {
    forall m, k :: 0 <= m < |objs| && 0 <= k < |objs[m].syms| && objs[m].syms[k].ext ==>
      Present(tbl, objs[m].syms[k].name)
  }

  predicate Present(tbl: seq<Sym>, name: string) {
    Find(tbl, name) < |tbl|
  }

  /**
   * Every defined entry comes from a definition in a loaded object; every name that a
   * loaded object mentions has an entry, which is defined or common if the object defines
   * it; every common size was asked for somewhere.
   */
  ghost predicate PassOneOk(tbl: seq<Sym>, loaded: seq<Object>, seen: seq<Object>) {
    && Distinct(tbl)
    && AllJustified(tbl, loaded)
    && AllSatisfied(tbl, loaded)
    && AllPresent(tbl, loaded)
    && AllSizesKnown(tbl, seen)
  }

  lemma {:induction false} JustifiedLater(objs: seq<Object>, o: Object, e: Sym)
    requires Justified(objs, e)
    ensures Justified(objs + [o], e)
  {
    if e.kind != Undf {
      var m: nat, k: nat :| ComesFrom(objs, e, m, k);
      BeforePrefix(objs, [o], m);
      assert ComesFrom(objs + [o], e, m, k);
    }
  }

  lemma {:induction false} SizeKnownLater(objs: seq<Object>, o: Object, e: Sym)
    requires SizeKnown(objs, e)
    ensures SizeKnown(objs + [o], e)
  {
    if e.kind == Undf && e.value > 0 {
      var m: nat, k: nat :| IsCommon(objs, m, k, e.name, e.value);
      assert IsCommon(objs + [o], m, k, e.name, e.value);
    }
  }

  lemma {:induction false} FindSame(a: seq<Sym>, b: seq<Sym>, name: string)
    requires Distinct(b) && |a| <= |b| && (forall i :: 0 <= i < |a| ==> a[i].name == b[i].name)
    requires Find(a, name) < |a|
    ensures Find(b, name) == Find(a, name)
  {
  }

  /** How one merge may change the table: names stay, definitions stay, sizes grow. */
  ghost predicate Follows(a: seq<Sym>, b: seq<Sym>, def: bool) {
    && |a| <= |b|
    && (forall i :: 0 <= i < |a| ==> a[i].name == b[i].name)
    && (forall i :: 0 <= i < |a| && a[i].kind != Undf ==> a[i] == b[i])
    && (forall i :: 0 <= i < |a| && b[i].kind == Undf ==> a[i].value <= b[i].value)
    && (!def ==> forall i :: 0 <= i < |a| ==> a[i].kind == b[i].kind)
  }

  lemma {:induction false} ReplaceFollows(tbl: seq<Sym>, i: nat, e: Sym, def: bool)
    requires Distinct(tbl) && i < |tbl| && tbl[i].kind == Undf && e.name == tbl[i].name
    requires e.kind == Undf ==> e.value >= tbl[i].value
    requires !def ==> e.kind == Undf
    ensures Distinct(tbl[i := e]) && Follows(tbl, tbl[i := e], def)
  {
  }

  lemma {:induction false} AppendFollows(tbl: seq<Sym>, e: Sym)
    requires Distinct(tbl) && Find(tbl, e.name) == |tbl|
    ensures Distinct(tbl + [e]) && Follows(tbl, tbl + [e], false)
  {
  }

  lemma {:induction false} MergeFollows(tbl: seq<Sym>, s: ObjSym)
    requires Distinct(tbl)
    ensures Distinct(Merge(tbl, s).0) && Follows(tbl, Merge(tbl, s).0, Merge(tbl, s).1)
  {
    var i := Find(tbl, s.name);
    if i == |tbl| {
      AppendFollows(tbl, Sym(s.name, s.kind, s.value));
    } else if tbl[i].kind == Undf {
      if s.kind == Undf {
        ReplaceFollows(tbl, i, tbl[i].(value := Max(s.value, tbl[i].value)), false);
      } else if !(tbl[i].value != 0 && s.kind == Text) {
        ReplaceFollows(tbl, i, Sym(s.name, s.kind, s.value), true);
      }
    }
  }

  /** The entries of the merged table are old ones, or the one for s: its definition, or a size. */
  lemma {:induction false} MergeEntries(tbl: seq<Sym>, s: ObjSym, i: nat)
    requires i < |Merge(tbl, s).0|
    ensures var e := Merge(tbl, s).0[i];
      || (i < |tbl| && e == tbl[i])
      || e == Sym(s.name, s.kind, s.value)
  {
  }

  /** A satisfied name stays satisfied. */
  lemma {:induction false} SatisfiedLater(a: seq<Sym>, b: seq<Sym>, def: bool, objs: seq<Object>, name: string)
    requires Distinct(a) && Distinct(b) && Follows(a, b, def) && AllSizesKnown(a, objs) && Satisfied(a, name)
    ensures Satisfied(b, name)
  {
    FindSame(a, b, name);
    assert SizeKnown(objs, a[Find(a, name)]);
  }

  lemma {:induction false} PresentLater(a: seq<Sym>, b: seq<Sym>, def: bool, name: string)
    requires Distinct(b) && Follows(a, b, def) && Present(a, name)
    ensures Present(b, name)
  {
    FindSame(a, b, name);
  }

  /** After merging a definition its name is satisfied. */
  lemma {:induction false} MergeSatisfies(tbl: seq<Sym>, s: ObjSym)
    requires Distinct(tbl) && s.kind != Undf
    ensures Satisfied(Merge(tbl, s).0, s.name)
  {
    var i := Find(tbl, s.name);
    MergeFollows(tbl, s);
    var t := Merge(tbl, s).0;
  }

  lemma {:induction false} MergePresent(tbl: seq<Sym>, s: ObjSym)
    requires Distinct(tbl)
    ensures Present(Merge(tbl, s).0, s.name)
  {
    MergeFollows(tbl, s);
  }

  /** The state in the middle of an object, after its first k symbols. */
  ghost predicate Midway(tbl: seq<Sym>, loaded: seq<Object>, seen: seq<Object>, o: Object, k: nat) {
    && Distinct(tbl) && k <= |o.syms|
    && AllJustified(tbl, loaded + [o])
    && AllSatisfied(tbl, loaded)
    && AllPresent(tbl, loaded)
    && AllSizesKnown(tbl, seen + [o])
    && (forall j :: 0 <= j < k && o.syms[j].ext ==> Present(tbl, o.syms[j].name))
    && forall j :: 0 <= j < k && o.syms[j].ext && o.syms[j].kind != Undf ==> Satisfied(tbl, o.syms[j].name)
  }

  lemma {:induction false} MidwayEntry(tbl: seq<Sym>, loaded: seq<Object>, seen: seq<Object>, o: Object, k: nat, i: nat)
    requires Midway(tbl, loaded, seen, o, k) && k < |o.syms| && o.syms[k].ext && o.Ok()
    requires i < |Merge(tbl, Placed(loaded, o, k)).0|
    ensures Justified(loaded + [o], Merge(tbl, Placed(loaded, o, k)).0[i])
    ensures SizeKnown(seen + [o], Merge(tbl, Placed(loaded, o, k)).0[i])
  {
    var s := Placed(loaded, o, k);
    var e := Merge(tbl, s).0[i];
    MergeEntries(tbl, s, i);
    if !(i < |tbl| && e == tbl[i]) {
      if s.kind != Undf {
        BeforePrefix(loaded, [o], |loaded|);
        assert ComesFrom(loaded + [o], e, |loaded|, k);
      } else if e.value > 0 {
        assert IsCommon(seen + [o], |seen|, k, e.name, e.value);
      }
    }
  }

  /** Symbol k of o as `load1` merges it when the objects in `loaded` have been accepted before. */
  function Placed(loaded: seq<Object>, o: Object, k: nat): ObjSym
    requires k < |o.syms|
  {
    var m := |loaded|;
    Relocated(o, o.syms[k], TextBefore(loaded, m), DataBefore(loaded, m), BssBefore(loaded, m))
  }

  lemma {:induction false} MidwayStep(tbl: seq<Sym>, loaded: seq<Object>, seen: seq<Object>, o: Object, k: nat)
    requires Midway(tbl, loaded, seen, o, k) && k < |o.syms| && o.syms[k].ext && o.Ok()
    ensures Midway(Merge(tbl, Placed(loaded, o, k)).0, loaded, seen, o, k + 1)
  {
    hide Merge, Follows, Justified, SizeKnown, Satisfied, Present;
    var s := Placed(loaded, o, k);
    var (t, def) := Merge(tbl, s);
    MergeFollows(tbl, s);
    forall i | 0 <= i < |t|
      ensures Justified(loaded + [o], t[i]) && SizeKnown(seen + [o], t[i])
    {
      MidwayEntry(tbl, loaded, seen, o, k, i);
    }
    forall name | Satisfied(tbl, name)
      ensures Satisfied(t, name)
    {
      SatisfiedLater(tbl, t, def, seen + [o], name);
    }
    forall name | Present(tbl, name)
      ensures Present(t, name)
    {
      PresentLater(tbl, t, def, name);
    }
    MergePresent(tbl, s);
    if s.kind != Undf {
      MergeSatisfies(tbl, s);
    }
  }

  lemma {:induction false} MidwayStart(tbl: seq<Sym>, loaded: seq<Object>, seen: seq<Object>, o: Object)
    requires PassOneOk(tbl, loaded, seen)
    ensures Midway(tbl, loaded, seen, o, 0) && Follows(tbl, tbl, false)
  {
    hide Justified, SizeKnown, Present, Satisfied;
    forall i | 0 <= i < |tbl|
      ensures Justified(loaded + [o], tbl[i]) && SizeKnown(seen + [o], tbl[i])
    {
      JustifiedLater(loaded, o, tbl[i]);
      SizeKnownLater(seen, o, tbl[i]);
    }
  }

  lemma {:induction false} MidwayDistinct(tbl: seq<Sym>, loaded: seq<Object>, seen: seq<Object>, o: Object, k: nat)
    requires Midway(tbl, loaded, seen, o, k)
    ensures Distinct(tbl)
  {
  }

  lemma {:induction false} MidwaySkip(tbl: seq<Sym>, loaded: seq<Object>, seen: seq<Object>, o: Object, k: nat)
    requires Midway(tbl, loaded, seen, o, k) && k < |o.syms| && !o.syms[k].ext
    ensures Midway(tbl, loaded, seen, o, k + 1)
  {
    hide Justified, SizeKnown, Present, Satisfied;
  }

  lemma {:induction false} FollowsOn(a: seq<Sym>, b: seq<Sym>, c: seq<Sym>, def: bool, def': bool)
    requires Follows(a, b, def) && Follows(b, c, def')
    ensures Follows(a, c, def || def')
  {
  }

  lemma {:induction false} MidwayAt(tbl: seq<Sym>, loaded: seq<Object>, seen: seq<Object>, o: Object, k: nat)
    requires PassOneOk(tbl, loaded, seen) && o.Ok() && k <= |o.syms|
    ensures var m := |loaded|;
      var (t, n) := MergeFirst(tbl, o, k, TextBefore(loaded, m), DataBefore(loaded, m), BssBefore(loaded, m));
      && Midway(t, loaded, seen, o, k)
      && Follows(tbl, t, n != 0)
  {
    hide Midway, Follows, PassOneOk, Merge, Justified, SizeKnown, Present, Satisfied;
    var m := |loaded|;
    if k == 0 {
      MidwayStart(tbl, loaded, seen, o);
    } else {
      MidwayAt(tbl, loaded, seen, o, k - 1);
      var (t, n) := MergeFirst(tbl, o, k - 1, TextBefore(loaded, m), DataBefore(loaded, m), BssBefore(loaded, m));
      if o.syms[k - 1].ext {
        MidwayStep(t, loaded, seen, o, k - 1);
        MidwayDistinct(t, loaded, seen, o, k - 1);
        MergeFollows(t, Placed(loaded, o, k - 1));
        var (after, def) := Merge(t, Placed(loaded, o, k - 1));
        FollowsOn(tbl, t, after, n != 0, def);
      } else {
        MidwaySkip(t, loaded, seen, o, k - 1);
      }
    }
  }

  /** An accepted object. */
  lemma {:induction false} AcceptKeeps(tbl: seq<Sym>, loaded: seq<Object>, seen: seq<Object>, o: Object)
    requires PassOneOk(tbl, loaded, seen) && o.Ok()
    ensures var m := |loaded|;
      var (t, n) := MergeFirst(tbl, o, |o.syms|, TextBefore(loaded, m), DataBefore(loaded, m), BssBefore(loaded, m));
      PassOneOk(t, loaded + [o], seen + [o])
  {
    MidwayAt(tbl, loaded, seen, o, |o.syms|);
    var m := |loaded|;
    var (t, n) := MergeFirst(tbl, o, |o.syms|, TextBefore(loaded, m), DataBefore(loaded, m), BssBefore(loaded, m));
    var objs := loaded + [o];
    forall m', k | 0 <= m' < |objs| && 0 <= k < |objs[m'].syms| && Defines(objs, m', k, objs[m'].syms[k].name)
      ensures Satisfied(t, objs[m'].syms[k].name)
    {
      assert m' < |loaded| ==> Defines(loaded, m', k, loaded[m'].syms[k].name);
    }
    forall m', k | 0 <= m' < |objs| && 0 <= k < |objs[m'].syms| && objs[m'].syms[k].ext
      ensures Present(t, objs[m'].syms[k].name)
    {
      assert m' < |loaded| ==> loaded[m'].syms[k].ext && Present(t, loaded[m'].syms[k].name);
    }
  }

  /** A table of the same names in which only sizes have grown. */
  lemma {:induction false} GrownSizesKeep(tbl: seq<Sym>, cut: seq<Sym>, loaded: seq<Object>, seen: seq<Object>,
    o: Object)
    requires PassOneOk(tbl, loaded, seen) && Distinct(cut) && |cut| == |tbl| && Follows(tbl, cut, false)
    requires AllSizesKnown(cut, seen + [o])
    ensures PassOneOk(cut, loaded, seen + [o])
  {
    forall i | 0 <= i < |cut|
      ensures Justified(loaded, cut[i])
    {
      assert Justified(loaded, tbl[i]);
    }
    forall name | Satisfied(tbl, name)
      ensures Satisfied(cut, name)
    {
      SatisfiedLater(tbl, cut, false, seen, name);
    }
    forall name | Present(tbl, name)
      ensures Present(cut, name)
    {
      FindSame(tbl, cut, name);
    }
  }

  /** A library member that defined nothing: its new names go, but the sizes it asked for stay. */
  lemma {:induction false} RejectKeeps(tbl: seq<Sym>, loaded: seq<Object>, seen: seq<Object>, o: Object)
    requires PassOneOk(tbl, loaded, seen) && o.Ok()
    ensures var m := |loaded|;
      var (t, n) := MergeFirst(tbl, o, |o.syms|, TextBefore(loaded, m), DataBefore(loaded, m), BssBefore(loaded, m));
      n == 0 ==> PassOneOk(t[..|tbl|], loaded, seen + [o]) && Follows(tbl, t[..|tbl|], false)
  {
    MidwayAt(tbl, loaded, seen, o, |o.syms|);
    var m := |loaded|;
    var (t, n) := MergeFirst(tbl, o, |o.syms|, TextBefore(loaded, m), DataBefore(loaded, m), BssBefore(loaded, m));
    if n == 0 {
      GrownSizesKeep(tbl, t[..|tbl|], loaded, seen, o);
    }
  }

  /** A name defined once, and never asked for as a common, gets the value of that definition. */
  lemma {:induction false} DefinedOnce(tbl: seq<Sym>, loaded: seq<Object>, seen: seq<Object>, name: string, m: nat,
    k: nat)
    requires PassOneOk(tbl, loaded, seen) && Defines(loaded, m, k, name)
    requires forall m': nat, k': nat :: Defines(loaded, m', k', name) ==> m' == m && k' == k
    requires forall m': nat, k': nat, v :: !IsCommon(seen, m', k', name, v)
    ensures Find(tbl, name) < |tbl|
    ensures tbl[Find(tbl, name)] == Sym(name, loaded[m].syms[k].kind, OffsetOf(loaded, m, k))
  {
    assert Defines(loaded, m, k, loaded[m].syms[k].name);
    assert Satisfied(tbl, name);
    var e := tbl[Find(tbl, name)];
    assert SizeKnown(seen, e) && Justified(loaded, e);
    assert e.kind != Undf;
    var m': nat, k': nat :| ComesFrom(loaded, e, m', k');
  }

  // ----- load1

  /** `nextsym`: null until something is entered, then past the n-th symbol of the table. */
  datatype Ptr = Null | Past(n: nat)

  /**
   * What has become of the link. Botch: ld has given up with "symfree botch" or "symx botch".
   * Dangling: it goes on, but the names of the first so many entries have been freed.
   */
  datatype Fate = Fine | Botch | Dangling(names: nat)

  /** Everything that pass 1 carries on from one object to the next. */
  datatype State = State(table: seq<Sym>, tsize: nat, dsize: nat, bsize: nat, loaded: seq<Object>, seen: seq<Object>,
                         nextsym: Ptr, fate: Fate)
  {
    /** `nextsym` does not point past the last symbol: the table was emptied under it. */
    predicate Stale() {
      nextsym.Past? && nextsym.n != |table|
    }

    ghost predicate Ok() {
      && fate.Fine?
      && PassOneOk(table, loaded, seen)
      && tsize == TextBefore(loaded, |loaded|)
      && dsize == DataBefore(loaded, |loaded|)
      && bsize == BssBefore(loaded, |loaded|)
      && (forall m :: 0 <= m < |loaded| ==> loaded[m].syms != [])
      && (nextsym.Null? ==> table == [])
      && (nextsym.Past? ==> nextsym.n >= 1 && (nextsym.n == |table| || table == []))
    }
  }

  const Start := State([], 0, 0, 0, [], [], Null, Fine)

  /** The segment of the symbol table that a pointer past the n-th symbol belongs to. */
  function SegmentOf(n: nat): nat
    requires n >= 1
  {
    (n - 1) / SymbolTable.NSYM
  }

  /** `nextsym` after the table has grown to n symbols, or has not grown. */
  function NextAfter(st: State, n: nat): Ptr {
    if n > |st.table| then Past(n) else st.nextsym
  }

  /**
   * An object is accepted. The names of its new symbols are saved, from `savnext` on: if that
   * is stale, `symx` finds no segment for it, or the names before it are not saved.
   */
  function Accepted(st: State, o: Object, tbl: seq<Sym>): State {
    var n := |tbl|;
    var fate := if !st.Stale() then Fine
                else if n == 0 || (st.nextsym.n >= 1 && SegmentOf(st.nextsym.n) > SegmentOf(n)) then Botch
                else Dangling(Min(st.nextsym.n, n));
    State(tbl, st.tsize + |o.text|, st.dsize + RoundLong(|o.data|), st.bsize + RoundLong(o.bss),
          st.loaded + [o], st.seen + [o], NextAfter(st, n), fate)
  }

  /**
   * A library member is backed out by `symfree(savnext)`. A null pointer empties the table and
   * leaves `nextsym`; a stale one is met on the way down, or never.
   */
  function BackedOut(st: State, o: Object, tbl: seq<Sym>): State {
    var now := st.(seen := st.seen + [o]);
    match st.nextsym
    case Null => now.(table := [], nextsym := NextAfter(st, |tbl|))
    case Past(p) =>
      if p > |tbl| then now.(table := [], nextsym := NextAfter(st, |tbl|), fate := Botch)
      else now.(table := tbl[..p], fate := if st.Stale() then Dangling(p) else Fine)
  }

  /** What an object has merged into the table, and the number of definitions counted. */
  function Merged(st: State, o: Object): (r: (seq<Sym>, nat))
    ensures |st.table| <= |r.0|
  {
    MergeFirst(st.table, o, |o.syms|, st.tsize, st.dsize, st.bsize)
  }

  /** `load1`: `libflg` says that the object is a library member, which is only wanted for what it defines. */
  function LoadOne(st: State, o: Object, libflg: bool): State {
    var (tbl, ndef) := Merged(st, o);
    if o.syms == [] then st.(seen := st.seen + [o])
    else if !libflg || ndef != 0 then Accepted(st, o, tbl)
    else BackedOut(st, o, tbl)
  }

  /** As long as nothing is stale, an object is loaded or backed out as it should be. */
  lemma {:induction false} LoadOneKeeps(st: State, o: Object, libflg: bool)
    requires st.Ok() && o.Ok() && LoadOne(st, o, libflg).fate.Fine?
    ensures LoadOne(st, o, libflg).Ok()
  {
    hide PassOneOk;
    AcceptKeeps(st.table, st.loaded, st.seen, o);
    RejectKeeps(st.table, st.loaded, st.seen, o);
    SizesGrow(st.loaded, o);
    assert st.table[..|st.table|] == st.table;
  }

  /** Nothing goes wrong in loading an object if and only if it has no symbols or nothing is stale. */
  lemma {:induction false} FineUnlessStale(st: State, o: Object, libflg: bool)
    requires st.Ok()
    ensures LoadOne(st, o, libflg).fate.Fine? <==> o.syms == [] || !st.Stale()
  {
  }

  class Linker {
    var table: seq<Sym>
    var tsize: nat
    var dsize: nat
    var bsize: nat
    var nextsym: Ptr
    var fate: Fate
    var loaded: seq<Object>         // the objects accepted, in order; `nextlibp` records the library members
    ghost var seen: seq<Object>     // all objects examined

    ghost function S(): State
      reads this
    {
      State(table, tsize, dsize, bsize, loaded, seen, nextsym, fate)
    }

    constructor ()
      ensures S() == Start
    {
      table, tsize, dsize, bsize := [], 0, 0, 0;
      loaded, seen := [], [];
      nextsym, fate := Null, Fine;
    }

    /** The part of the loop of `load1` that enters one external symbol or merges it into its entry. */
    method EnterOrMerge(cursym: ObjSym) returns (counted: bool)
      requires Distinct(table)
      modifies this`table, this`nextsym
      ensures Distinct(table)
      ensures (table, counted) == Merge(old(table), cursym)
      ensures nextsym == if |table| > |old(table)| then Past(|table|) else old(nextsym)
    {
      var sp := Find(table, cursym.name);
      if sp == |table| {
        table := table + [Sym(cursym.name, cursym.kind, cursym.value)];
        nextsym := Past(|table|);
        return false;
      }
      if table[sp].kind != Undf {
        return false;
      }
      if cursym.kind == Undf {
        assert table[sp := table[sp]] == table;
        if cursym.value > table[sp].value {
          table := table[sp := table[sp].(value := cursym.value)];
        }
        return false;
      }
      if table[sp].value != 0 && cursym.kind == Text {
        return false;
      }
      table := table[sp := Sym(cursym.name, cursym.kind, cursym.value)];
      return true;
    }

    /** The loop of `load1` over the symbols of an object. */
    method MergeSymbols(o: Object) returns (ndef: nat)
      requires Distinct(table)
      modifies this`table, this`nextsym
      ensures (table, ndef) == MergeFirst(old(table), o, |o.syms|, tsize, dsize, bsize)
      ensures nextsym == if |table| > |old(table)| then Past(|table|) else old(nextsym)
    {
      ndef := 0;
      var symno := 0;
      while symno < |o.syms|
        invariant 0 <= symno <= |o.syms|
        invariant (table, ndef) == MergeFirst(old(table), o, symno, tsize, dsize, bsize)
        invariant nextsym == if |table| > |old(table)| then Past(|table|) else old(nextsym)
        invariant Distinct(table)
      {
        var cursym := o.syms[symno];
        symno := symno + 1;
        if !cursym.ext {
          continue;
        }
        cursym := Relocated(o, cursym, tsize, dsize, bsize);
        var counted := EnterOrMerge(cursym);
        ndef := if counted then ndef + 1 else ndef;
      }
    }

    /** `symfree`: symbols go from the end until the one at `saved` has gone, or all have. */
    method SymFree(saved: Ptr)
      requires saved.Past? ==> saved.n >= 1
      modifies this`table, this`nextsym, this`fate
      ensures saved.Null? ==> table == [] && nextsym == old(nextsym) && fate == old(fate)
      ensures saved.Past? && saved.n <= |old(table)| ==>
        table == old(table)[..saved.n] && nextsym == saved && fate == old(fate)
      ensures saved.Past? && saved.n > |old(table)| ==> table == [] && nextsym == old(nextsym) && fate == Botch
    {
      while table != []
        invariant |table| <= |old(table)| && table == old(table)[..|table|]
        invariant nextsym == old(nextsym) && fate == old(fate)
        invariant saved.Past? ==> saved.n <= |table| || saved.n > |old(table)|
        decreases |table|
      {
        if saved == Past(|table|) {
          nextsym := saved;
          return;
        }
        table := table[..|table| - 1];
      }
      if saved.Past? {
        fate := Botch;
      }
    }

    /** `load1`. */
    method Load1(o: Object, libflg: bool) returns (used: bool)
      requires S().Ok() && o.Ok()
      modifies this
      ensures S() == LoadOne(old(S()), o, libflg)
      ensures used == (|loaded| > |old(loaded)|)
      ensures fate.Fine? ==> S().Ok()
    {
      hide PassOneOk, State.Ok, Distinct, MergeFirst, RoundLong, SegmentOf;
      ghost var st := S();
      StateFacts(st);
      if fate.Fine? && LoadOne(st, o, libflg).fate.Fine? {
        LoadOneKeeps(st, o, libflg);
      }
      seen := seen + [o];
      if o.syms == [] {
        return false;
      }
      var savnext := nextsym;
      var n0 := |table|;
      var ndef := MergeSymbols(o);
      if libflg && ndef == 0 {
        SymFree(savnext);
        if savnext.Past? && savnext.n != n0 && fate.Fine? {
          fate := Dangling(savnext.n);
        }
        return false;
      }
      tsize := tsize + |o.text|;
      dsize := dsize + RoundLong(|o.data|);
      bsize := bsize + RoundLong(o.bss);
      loaded := loaded + [o];
      if savnext.Past? && savnext.n != n0 {
        fate := if |table| == 0 || SegmentOf(savnext.n) > SegmentOf(|table|) then Botch
                else Dangling(Min(savnext.n, |table|));
      }
      used := true;
    }
  }

  lemma {:induction false} StateFacts(st: State)
    requires st.Ok()
    ensures st.fate.Fine? && Distinct(st.table)
    ensures st.nextsym.Null? ==> st.table == []
    ensures st.nextsym.Past? ==> st.nextsym.n >= 1 && (st.nextsym.n == |st.table| || st.table == [])
  {
  }

  function Min(a: nat, b: nat): nat {
    if a < b then a else b
  }

  /** A library member that defines `name` and nothing that is wanted. */
  function Useless(name: string): Object {
    Object([], 0, [], 0, [ObjSym(name, true, Abs, 1)], [], [])
  }

  /** A library member that has only a symbol of its own. */
  const NothingExternal := Object([], 0, [], 0, [ObjSym("c", false, Abs, 1)], [], [])

  /** After one useless member the table is empty, and `nextsym` points past its symbol. */
  lemma {:induction false} OneUselessMember(name: string)
    ensures LoadOne(Start, Useless(name), true) == Start.(seen := [Useless(name)], nextsym := Past(1))
  {
    OneSymbol(Start, name);
  }

  /**
   * Two useless members of a library without a table of contents, first in a link: the second
   * is not undone, although it is not loaded, and the name of its symbol has been freed. If
   * it has no external symbol, ld gives up.
   */
  lemma {:induction false} TwoUselessMembers()
    ensures var st := LoadOne(Start, Useless("a"), true);
      && LoadOne(st, Useless("b"), true) ==
        st.(seen := st.seen + [Useless("b")], table := [Sym("b", Abs, 1)], fate := Dangling(1))
      && LoadOne(st, NothingExternal, true).fate == Botch
  {
    hide MergeFirst;
    OneUselessMember("a");
    var st := LoadOne(Start, Useless("a"), true);
    OneSymbol(st, "b");
    NoSymbol(st);
  }

  lemma {:induction false} OneSymbol(st: State, name: string)
    requires st.table == [] && st.tsize == st.dsize == st.bsize == 0
    ensures Merged(st, Useless(name)) == ([Sym(name, Abs, 1)], 0)
  {
    OnlySymbol(st.table, Useless(name), 0, 0, 0);
    assert st.table + [Sym(name, Abs, 1)] == [Sym(name, Abs, 1)];
  }

  /** An object with one external symbol merges just that. */
  lemma {:induction false} OnlySymbol(tbl: seq<Sym>, o: Object, t: int, d: int, b: int)
    requires |o.syms| == 1 && o.syms[0].ext
    ensures var m := Merge(tbl, Relocated(o, o.syms[0], t, d, b));
      MergeFirst(tbl, o, 1, t, d, b) == (m.0, if m.1 then 1 else 0)
  {
    assert MergeFirst(tbl, o, 0, t, d, b) == (tbl, 0);
  }

  lemma {:induction false} NoSymbol(st: State)
    requires st.table == []
    ensures Merged(st, NothingExternal) == ([], 0)
  {
    var o := NothingExternal;
    assert |o.syms| == 1 && !o.syms[0].ext;
    assert MergeFirst([], o, 0, st.tsize, st.dsize, st.bsize) == ([], 0);
    assert MergeFirst([], o, 1, st.tsize, st.dsize, st.bsize) == ([], 0);
  }

  lemma {:induction false} BeforePrefix(objs: seq<Object>, more: seq<Object>, m: nat)
    requires m <= |objs|
    ensures TextBefore(objs + more, m) == TextBefore(objs, m)
    ensures DataBefore(objs + more, m) == DataBefore(objs, m)
    ensures BssBefore(objs + more, m) == BssBefore(objs, m)
  {
    if m > 0 {
      BeforePrefix(objs, more, m - 1);
    }
  }

  lemma {:induction false} SizesGrow(objs: seq<Object>, o: Object)
    ensures TextBefore(objs + [o], |objs| + 1) == TextBefore(objs, |objs|) + |o.text|
    ensures DataBefore(objs + [o], |objs| + 1) == DataBefore(objs, |objs|) + RoundLong(|o.data|)
    ensures BssBefore(objs + [o], |objs| + 1) == BssBefore(objs, |objs|) + RoundLong(o.bss)
  {
    BeforePrefix(objs, [o], |objs|);
  }
}
