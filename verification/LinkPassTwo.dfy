/**
 * Pass 2 of bin/ld.c: `load2` works out every address again from the objects themselves,
 * compares it with the table, and has `load2td` patch the code.
 */
module LinkPassTwo {
  import opened Numbers
  import opened LinkPassOne
  import opened LinkMiddle

  const WORD := 0x1_0000_0000

  // ----- addresses

  /** A place in an object: a byte of its text, data or bss. */
  datatype Loc = Loc(m: nat, kind: Kind, off: nat)

  function SegmentSize(o: Object, kind: Kind): nat {
    match kind
    case Text => |o.text|
    case Data => |o.data|
    case Bss => o.bss
    case _ => 0
  }

  predicate Exists(objs: seq<Object>, l: Loc) {
    l.m < |objs| && l.off < SegmentSize(objs[l.m], l.kind)
  }

  /** The address of a place in the object's own numbering. */
  function ObjectAddress(objs: seq<Object>, l: Loc): int
    requires l.m < |objs|
  {
    match l.kind
    case Data => objs[l.m].dataStart + l.off
    case Bss => objs[l.m].dataStart + |objs[l.m].data| + l.off
    case _ => l.off
  }

  /** The address of a place in the output. */
  function Address(objs: seq<Object>, org: Origins, l: Loc): int
    requires l.m < |objs|
  {
    match l.kind
    case Text => org.text + TextBefore(objs, l.m) + l.off
    case Data => org.data + DataBefore(objs, l.m) + l.off
    case Bss => org.bss + BssBefore(objs, l.m) + l.off
    case _ => l.off
  }

  /** What pass 2 adds to an address in a segment of object m: its ctrel, cdrel or cbrel. */
  function Moved(objs: seq<Object>, org: Origins, m: nat, kind: Kind): int
    requires m < |objs|
  {
    Displacement(objs[m], kind, org.text + TextBefore(objs, m), org.data + DataBefore(objs, m),
      org.bss + BssBefore(objs, m))
  }

  /** The origins leave room for everything that goes before them. */
  ghost predicate RoomFor(objs: seq<Object>, org: Origins) {
    var n := |objs|;
    && org.text + TextBefore(objs, n) <= org.data
    && org.data + DataBefore(objs, n) <= org.common <= org.bss
  }

  lemma {:induction false} BeforeGrows(objs: seq<Object>, i: nat, j: nat)
    requires i < j <= |objs|
    ensures TextBefore(objs, i) + |objs[i].text| <= TextBefore(objs, j)
    ensures DataBefore(objs, i) + |objs[i].data| <= DataBefore(objs, j)
    ensures BssBefore(objs, i) + objs[i].bss <= BssBefore(objs, j)
    decreases j
  {
    if i < j - 1 {
      BeforeGrows(objs, i, j - 1);
    }
  }

  lemma {:induction false} WithinSegment(objs: seq<Object>, org: Origins, l: Loc)
    requires Exists(objs, l)
    ensures l.kind == Text ==> org.text <= Address(objs, org, l) < org.text + TextBefore(objs, |objs|)
    ensures l.kind == Data ==> org.data <= Address(objs, org, l) < org.data + DataBefore(objs, |objs|)
    ensures l.kind == Bss ==> org.bss <= Address(objs, org, l)
  {
    BeforeGrows(objs, l.m, |objs|);
  }

  lemma {:induction false} OneSegment(objs: seq<Object>, org: Origins, a: Loc, b: Loc)
    requires Exists(objs, a) && Exists(objs, b) && a.kind == b.kind && a.m < b.m
    ensures Address(objs, org, a) < Address(objs, org, b)
  {
    BeforeGrows(objs, a.m, b.m);
  }

  /** No two bytes of the program are loaded at the same address, nor one in the common storage. */
  lemma {:induction false} PlacementInjective(objs: seq<Object>, org: Origins, a: Loc, b: Loc)
    requires Exists(objs, a) && Exists(objs, b) && RoomFor(objs, org)
    ensures Address(objs, org, a) == Address(objs, org, b) ==> a == b
    ensures !(org.common <= Address(objs, org, a) < org.bss)
  {
    WithinSegment(objs, org, a);
    WithinSegment(objs, org, b);
    if a.kind == b.kind {
      if a.m < b.m {
        OneSegment(objs, org, a, b);
      } else if b.m < a.m {
        OneSegment(objs, org, b, a);
      }
    }
  }

  /** The table after `middle`, for the objects that pass 1 has loaded. */
  function LinkedTable(tbl: seq<Sym>, loaded: seq<Object>, opts: Options): seq<Sym>
    requires opts.Ok()
  {
    var n := |loaded|;
    FinalTable(tbl, opts, TextBefore(loaded, n), DataBefore(loaded, n), BssBefore(loaded, n))
  }

  function LinkedOrigins(tbl: seq<Sym>, loaded: seq<Object>, opts: Options): Origins
    requires opts.Ok()
  {
    var n := |loaded|;
    OriginsFor(tbl, opts, TextBefore(loaded, n), DataBefore(loaded, n), BssBefore(loaded, n))
  }

  /** The origins that `middle` computes leave room. */
  lemma {:induction false} MiddleLeavesRoom(tbl: seq<Sym>, loaded: seq<Object>, seen: seq<Object>, opts: Options)
    requires opts.Ok() && PassOneOk(tbl, loaded, seen)
    ensures RoomFor(loaded, LinkedOrigins(tbl, loaded, opts))
  {
    var n := |loaded|;
    var p := Prepared(tbl, opts, TextBefore(loaded, n), DataBefore(loaded, n), BssBefore(loaded, n));
    UsedGrows(p, 0, |p|);
  }

  // ----- the two passes agree

  /** Symbol k of object m with the address that pass 2 computes for it. */
  function Placed2(objs: seq<Object>, org: Origins, m: nat, k: nat): ObjSym
    requires m < |objs| && k < |objs[m].syms|
  {
    var s := objs[m].syms[k];
    s.(value := s.value + Moved(objs, org, m, s.kind))
  }

  lemma {:induction false} FinalNames(tbl: seq<Sym>, opts: Options, t: int, d: int, b: int, name: string)
    requires opts.Ok()
    ensures |FinalTable(tbl, opts, t, d, b)| == |tbl|
    ensures Find(FinalTable(tbl, opts, t, d, b), name) == Find(tbl, name)
  {
  }

  lemma {:induction false} EntryJustified(tbl: seq<Sym>, loaded: seq<Object>, seen: seq<Object>, i: nat)
    requires PassOneOk(tbl, loaded, seen) && i < |tbl|
    ensures Justified(loaded, tbl[i])
  {
  }

  /**
   * Every entry that pass 1 had defined ends with the very address that pass 2 computes
   * for one of the definitions of that name in the loaded objects.
   */
  lemma {:induction false} PassesAgree(tbl: seq<Sym>, loaded: seq<Object>, seen: seq<Object>, opts: Options, i: nat)
    returns (m: nat, k: nat)
    requires opts.Ok() && PassOneOk(tbl, loaded, seen) && i < |tbl| && tbl[i].kind != Undf && tbl[i].kind != Comm
    ensures Defines(loaded, m, k, tbl[i].name)
    ensures |LinkedTable(tbl, loaded, opts)| == |tbl|
    ensures var e := LinkedTable(tbl, loaded, opts)[i];
      var s := Placed2(loaded, LinkedOrigins(tbl, loaded, opts), m, k);
      e.kind == s.kind && e.value == s.value
  {
    hide PassOneOk, TextBefore, DataBefore, BssBefore, OriginsFor;
    EntryJustified(tbl, loaded, seen, i);
    m, k :| ComesFrom(loaded, tbl[i], m, k);
  }

  /** `name` is defined by symbol k of loaded object m only, and no object seen asks for it as a common. */
  ghost predicate OnlyDefinition(loaded: seq<Object>, seen: seq<Object>, name: string, m: nat, k: nat) {
    && Defines(loaded, m, k, name) && loaded[m].syms[k].kind != Comm
    && (forall m': nat, k': nat :: Defines(loaded, m', k', name) ==> m' == m && k' == k)
    && (forall m': nat, k': nat, v :: !IsCommon(seen, m', k', name, v))
  }

  /** A name defined once and never common: its final entry is its address in pass 2. */
  lemma {:induction false} DefinedOnceAddress(tbl: seq<Sym>, loaded: seq<Object>, seen: seq<Object>, opts: Options,
                           name: string, m: nat, k: nat)
    requires opts.Ok() && PassOneOk(tbl, loaded, seen) && OnlyDefinition(loaded, seen, name, m, k)
    ensures var final := LinkedTable(tbl, loaded, opts);
      var s := Placed2(loaded, LinkedOrigins(tbl, loaded, opts), m, k);
      && Find(final, name) < |final|
      && final[Find(final, name)] == Sym(name, s.kind, s.value)
  {
    DefinedOnce(tbl, loaded, seen, name, m, k);
    var n := |loaded|;
    var t, d, b := TextBefore(loaded, n), DataBefore(loaded, n), BssBefore(loaded, n);
    FinalNames(tbl, opts, t, d, b, name);
  }

  /** The table gives the name that address. */
  predicate NameAt(final: seq<Sym>, name: string, address: int) {
    var f := Find(final, name);
    f < |final| && final[f].kind != Undf && final[f].value == address
  }

  /** The place of that definition is where the table says the name is. */
  lemma {:induction false} DefinedOncePlace(tbl: seq<Sym>, loaded: seq<Object>, seen: seq<Object>, opts: Options,
                                            name: string, k: nat, place: Loc)
    requires opts.Ok() && PassOneOk(tbl, loaded, seen) && OnlyDefinition(loaded, seen, name, place.m, k)
    requires place.kind == loaded[place.m].syms[k].kind
    requires ObjectAddress(loaded, place) == loaded[place.m].syms[k].value
    ensures NameAt(LinkedTable(tbl, loaded, opts), name, Address(loaded, LinkedOrigins(tbl, loaded, opts), place))
  {
    DefinedOnceAddress(tbl, loaded, seen, opts, name, place.m, k);
  }

  /** load2's complaint about symbol k of object m. */
  predicate MultiplyDefined(final: seq<Sym>, objs: seq<Object>, org: Origins, m: nat, k: nat)
    requires m < |objs| && k < |objs[m].syms|
  {
    var s := Placed2(objs, org, m, k);
    && s.ext && s.kind != Undf
    && Find(final, s.name) < |final|
    && !(final[Find(final, s.name)].kind == s.kind && final[Find(final, s.name)].value == s.value)
  }

  /** Two definitions at different places are never both accepted. */
  lemma {:induction false} DuplicateReported(final: seq<Sym>, objs: seq<Object>, org: Origins, m: nat, k: nat,
    m': nat, k': nat, name: string, a: Loc, a': Loc)
    requires Defines(objs, m, k, name) && Defines(objs, m', k', name) && Find(final, name) < |final|
    requires RoomFor(objs, org) && Exists(objs, a) && Exists(objs, a') && a != a'
    requires a.m == m && a.kind == objs[m].syms[k].kind && ObjectAddress(objs, a) == objs[m].syms[k].value
    requires a'.m == m' && a'.kind == objs[m'].syms[k'].kind && ObjectAddress(objs, a') == objs[m'].syms[k'].value
    ensures MultiplyDefined(final, objs, org, m, k) || MultiplyDefined(final, objs, org, m', k')
  {
    PlacementInjective(objs, org, a, a');
  }

  // ----- patching code

  /** The value of little-endian bytes. */
  function Little(s: seq<byte>): nat {
    if s == [] then 0 else s[0] as nat + 256 * Little(s[1..])
  }

  function Bytes(w: nat, n: nat): (s: seq<byte>)
    ensures |s| == n
  {
    if n == 0 then [] else [w % 256] + Bytes(w / 256, n - 1)
  }

  function Power256(n: nat): nat {
    if n == 0 then 1 else 256 * Power256(n - 1)
  }

  lemma {:induction false} LittleBytes(w: nat, n: nat)
    requires w < Power256(n)
    ensures Little(Bytes(w, n)) == w
  {
    if n > 0 {
      LittleBytes(w / 256, n - 1);
    }
  }

  lemma {:induction false} LittleBound(s: seq<byte>)
    ensures Little(s) < Power256(|s|)
  {
    if s != [] {
      LittleBound(s[1..]);
    }
  }

  function LongAt(code: seq<byte>, a: nat): (w: nat)
    requires a + 4 <= |code|
  {
    Little(code[a..a + 4])
  }

  function WithLong(code: seq<byte>, a: nat, w: nat): (c: seq<byte>)
    requires a + 4 <= |code|
    ensures |c| == |code|
  {
    code[..a] + Bytes(w, 4) + code[a + 4..]
  }

  /** A long that was stored is read back, and nothing else has changed. */
  lemma {:induction false} StoreLong(code: seq<byte>, a: nat, w: nat)
    requires a + 4 <= |code| && w < WORD
    ensures var c := WithLong(code, a, w);
      && LongAt(c, a) == w
      && (forall p :: 0 <= p < |code| && !(a <= p < a + 4) ==> c[p] == code[p])
      && (forall p :: 0 <= p && p + 4 <= |code| && (p + 4 <= a || a + 4 <= p) ==> LongAt(c, p) == LongAt(code, p))
  {
    var c := WithLong(code, a, w);
    assert c[a..a + 4] == Bytes(w, 4);
    assert Power256(4) == WORD;
    LittleBytes(w, 4);
    forall p | 0 <= p && p + 4 <= |code| && (p + 4 <= a || a + 4 <= p)
      ensures LongAt(c, p) == LongAt(code, p)
    {
      assert c[p..p + 4] == code[p..p + 4];
    }
  }

  /** One relocation: the long at `a` grows by d, modulo the word size. */
  function Patched(code: seq<byte>, a: nat, d: int): (c: seq<byte>)
    requires a + 4 <= |code|
    ensures |c| == |code|
  {
    WithLong(code, a, (LongAt(code, a) + d) % WORD)
  }

  /** The first n relocations, in order, each with its own amount. */
  function PatchedFirst(code: seq<byte>, sites: seq<nat>, d: seq<int>, n: nat): (c: seq<byte>)
    requires n <= |sites| == |d|
    requires forall i :: 0 <= i < |sites| ==> sites[i] + 4 <= |code|
    ensures |c| == |code|
  {
    if n == 0 then code else Patched(PatchedFirst(code, sites, d, n - 1), sites[n - 1], d[n - 1])
  }

  ghost predicate Apart(sites: seq<nat>) {
    forall i, j :: 0 <= i < j < |sites| ==> sites[i] + 4 <= sites[j] || sites[j] + 4 <= sites[i]
  }

  ghost predicate Outside(sites: seq<nat>, n: nat, p: int)
    requires n <= |sites|
  {
    forall i :: 0 <= i < n ==> !(sites[i] <= p < sites[i] + 4)
  }

  /** The first n longs have grown by their own amounts, and every byte outside them is as it was. */
  ghost predicate SitesDone(code: seq<byte>, c: seq<byte>, sites: seq<nat>, d: seq<int>, n: nat)
    requires n <= |sites| == |d| && |c| == |code|
    requires forall i :: 0 <= i < |sites| ==> sites[i] + 4 <= |code|
  {
    && (forall i :: 0 <= i < |sites| ==>
          LongAt(c, sites[i]) == if i < n then (LongAt(code, sites[i]) + d[i]) % WORD else LongAt(code, sites[i]))
    && (forall p :: 0 <= p < |code| && Outside(sites, n, p) ==> c[p] == code[p])
  }

  lemma {:induction false} PatchStep(code: seq<byte>, b: seq<byte>, sites: seq<nat>, d: seq<int>, n: nat)
    requires n < |sites| == |d| && Apart(sites) && |b| == |code|
    requires forall i :: 0 <= i < |sites| ==> sites[i] + 4 <= |code|
    requires SitesDone(code, b, sites, d, n)
    ensures SitesDone(code, Patched(b, sites[n], d[n]), sites, d, n + 1)
  {
    var w := (LongAt(b, sites[n]) + d[n]) % WORD;
    var c := Patched(b, sites[n], d[n]);
    StoreLong(b, sites[n], w);
    forall i | 0 <= i < |sites| && i != n
      ensures LongAt(c, sites[i]) == LongAt(b, sites[i])
    {
      assert sites[i] + 4 <= sites[n] || sites[n] + 4 <= sites[i];
    }
    forall p | 0 <= p < |code| && Outside(sites, n + 1, p)
      ensures c[p] == code[p]
    {
      assert !(sites[n] <= p < sites[n] + 4);
      assert Outside(sites, n, p);
    }
  }

  lemma NoneDone(code: seq<byte>, sites: seq<nat>, d: seq<int>)
    requires |sites| == |d| && forall i :: 0 <= i < |sites| ==> sites[i] + 4 <= |code|
    ensures SitesDone(code, code, sites, d, 0)
  {
  }

  /** With sites apart, all relocations are done independently. */
  lemma {:induction false} PatchedSites(code: seq<byte>, sites: seq<nat>, d: seq<int>, n: nat)
    requires n <= |sites| == |d| && Apart(sites)
    requires forall i :: 0 <= i < |sites| ==> sites[i] + 4 <= |code|
    ensures SitesDone(code, PatchedFirst(code, sites, d, n), sites, d, n)
  {
    hide SitesDone, Apart, Patched;
    if n == 0 {
      NoneDone(code, sites, d);
    } else {
      var b := PatchedFirst(code, sites, d, n - 1);
      PatchedSites(code, sites, d, n - 1);
      PatchStep(code, b, sites, d, n - 1);
      assert PatchedFirst(code, sites, d, n) == Patched(b, sites[n - 1], d[n - 1]);
    }
  }
}
