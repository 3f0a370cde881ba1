/**
 * The step between the passes of bin/ld.c: `middle` gives the common symbols storage,
 * fixes where each output segment begins, and turns every entry into a final address.
 */
module LinkMiddle {
  import opened Numbers
  import opened LinkPassOne

  datatype Options = Options(rflag: bool, dflag: bool, nflag: bool, zflag: bool, pagesize: nat, textbase: nat,
                             hsize: nat)
  {
    predicate Ok() {
      pagesize > 0
    }
  }

  /** Where the output segments begin: text, data, common storage, bss. */
  datatype Origins = Origins(text: int, data: int, common: int, bss: int)

  /** `round(v, r)`: up to a multiple of r. */
  function Round(v: int, r: int): (n: int)
    requires r > 0
    ensures v <= n < v + r
    ensures Divides(r, n)
  {
    var q := (v + r - 1) / r;
    MultipleDivides(r, q);
    r * q
  }

  // ----- common storage

  predicate WantsStorage(e: Sym) {
    e.kind == Undf && e.value != 0
  }

  /** The alignment of a common: 8 for a double and longer, 4 for a long, else 2. */
  function Alignment(size: int): (r: int)
    ensures r > 0
  {
    if size >= 8 then 8 else if size >= 4 then 4 else 2
  }

  /** Storage used by the commons among the first k entries. */
  function Used(tbl: seq<Sym>, k: nat): int
    requires k <= |tbl|
    decreases k, 0
  {
    if k == 0 then 0
    else if WantsStorage(tbl[k - 1]) then Position(tbl, k - 1) + tbl[k - 1].value
    else Used(tbl, k - 1)
  }

  /** Where entry k is put, if it is a common. */
  function Position(tbl: seq<Sym>, k: nat): (n: int)
    requires k < |tbl|
    decreases k, 1
  {
    Round(Used(tbl, k), Alignment(tbl[k].value))
  }

  function Allotted(tbl: seq<Sym>, i: nat): Sym
    requires i < |tbl|
  {
    if WantsStorage(tbl[i]) then Sym(tbl[i].name, Comm, Position(tbl, i)) else tbl[i]
  }

  function AllAllotted(tbl: seq<Sym>): (t: seq<Sym>)
    ensures |t| == |tbl|
    ensures forall i :: 0 <= i < |tbl| ==> t[i].name == tbl[i].name
  {
    seq(|tbl|, i requires 0 <= i < |tbl| => Allotted(tbl, i))
  }

  ghost predicate SizesPositive(tbl: seq<Sym>) {
    forall i :: 0 <= i < |tbl| ==> (tbl[i].kind == Undf ==> tbl[i].value >= 0)
  }

  lemma {:induction false} UsedGrows(tbl: seq<Sym>, i: nat, j: nat)
    requires SizesPositive(tbl) && i <= j <= |tbl|
    ensures 0 <= Used(tbl, i) <= Used(tbl, j)
    decreases j
  {
    if i < j {
      UsedGrows(tbl, i, j - 1);
    } else if i > 0 {
      UsedGrows(tbl, i - 1, i - 1);
    }
  }

  /** Commons are aligned, do not overlap, and lie within the storage used. */
  lemma {:induction false} CommonsApart(tbl: seq<Sym>, i: nat, j: nat)
    requires SizesPositive(tbl) && i < |tbl| && j < |tbl| && WantsStorage(tbl[i]) && WantsStorage(tbl[j])
    ensures 0 <= Position(tbl, i) && Position(tbl, i) + tbl[i].value <= Used(tbl, |tbl|)
    ensures Divides(Alignment(tbl[i].value), Position(tbl, i))
    ensures i < j ==> Position(tbl, i) + tbl[i].value <= Position(tbl, j)
  {
    UsedGrows(tbl, i, i);
    UsedGrows(tbl, i + 1, |tbl|);
    if i < j {
      UsedGrows(tbl, i + 1, j);
    }
  }

  // ----- the symbols that ld defines itself

  const ETEXT := "_etext"
  const EDATA := "_edata"
  const END := "_end"

  predicate IsSpecial(name: string) {
    name == ETEXT || name == EDATA || name == END
  }

  /** `ldrsym`: only an entry that is undefined and not a common is set. */
  function SetSpecial(tbl: seq<Sym>, name: string, value: int, kind: Kind): (t: seq<Sym>)
    ensures |t| == |tbl|
    ensures forall i :: 0 <= i < |tbl| && tbl[i].kind != Undf ==> t[i] == tbl[i]
    ensures forall i :: 0 <= i < |tbl| ==> t[i].name == tbl[i].name
  {
    var i := Find(tbl, name);
    if i == |tbl| || tbl[i].kind != Undf || tbl[i].value != 0 then tbl
    else tbl[i := Sym(name, kind, value)]
  }

  function SetSpecials(tbl: seq<Sym>, tsize: int, dsize: int, bsize: int): (t: seq<Sym>)
    ensures |t| == |tbl|
    ensures forall i :: 0 <= i < |tbl| && tbl[i].kind != Undf ==> t[i] == tbl[i]
    ensures forall i :: 0 <= i < |tbl| ==> t[i].name == tbl[i].name
  {
    SetSpecial(SetSpecial(SetSpecial(tbl, ETEXT, tsize, Text), EDATA, dsize, Data), END, bsize, Bss)
  }

  // ----- final values

  /** Some symbol other than ld's own is undefined and no common. */
  predicate SomeMissing(tbl: seq<Sym>) {
    exists i :: 0 <= i < |tbl| && tbl[i].kind == Undf && tbl[i].value == 0 && !IsSpecial(tbl[i].name)
  }

  /** Commons are defined unless relocation is to be kept, as it is when something is missing. */
  predicate DefinesCommons(tbl: seq<Sym>, opts: Options) {
    if opts.rflag then opts.dflag else !SomeMissing(tbl)
  }

  function Final(e: Sym, org: Origins): Sym {
    match e.kind
    case Text => e.(value := e.value + org.text)
    case Data => e.(value := e.value + org.data)
    case Bss => e.(value := e.value + org.bss)
    case Comm => Sym(e.name, Bss, e.value + org.common)
    case _ => e
  }

  function AllFinal(tbl: seq<Sym>, org: Origins): (t: seq<Sym>)
    ensures |t| == |tbl|
    ensures forall i :: 0 <= i < |tbl| ==> t[i].name == tbl[i].name
  {
    seq(|tbl|, i requires 0 <= i < |tbl| => Final(tbl[i], org))
  }

  /** The table whose undefined entries with a size are given storage. */
  function Prepared(tbl: seq<Sym>, opts: Options, tsize: int, dsize: int, bsize: int): seq<Sym> {
    if DefinesCommons(tbl, opts) then SetSpecials(tbl, tsize, dsize, bsize) else tbl
  }

  /** Relocation is kept when that is asked for, or when something is missing. */
  predicate KeepsRelocation(tbl: seq<Sym>, opts: Options) {
    opts.rflag || SomeMissing(tbl)
  }

  /** The data begin at a page, unless that is only for demand paging, which needs a complete program. */
  function DataBase(tbl: seq<Sym>, opts: Options, tsize: int): int
    requires opts.Ok()
  {
    var paged := opts.nflag || (opts.zflag && !KeepsRelocation(tbl, opts));
    Round(tsize + opts.textbase, if paged then opts.pagesize else 4) + opts.hsize
  }

  function OriginsFor(tbl: seq<Sym>, opts: Options, tsize: int, dsize: int, bsize: int): Origins
    requires opts.Ok()
  {
    var data := DataBase(tbl, opts, tsize);
    var p := Prepared(tbl, opts, tsize, dsize, bsize);
    var csize := if DefinesCommons(tbl, opts) then Round(Used(p, |p|), 4) else 0;
    Origins(opts.textbase, data, data + dsize, data + dsize + csize)
  }

  function FinalTable(tbl: seq<Sym>, opts: Options, tsize: int, dsize: int, bsize: int): seq<Sym>
    requires opts.Ok()
  {
    var p := Prepared(tbl, opts, tsize, dsize, bsize);
    AllFinal(if DefinesCommons(tbl, opts) then AllAllotted(p) else p, OriginsFor(tbl, opts, tsize, dsize, bsize))
  }

  // ----- what `middle` has to achieve, told from the table before and after

  ghost predicate LeastMultiple(r: int, v: int, n: int)
    requires r > 0
  {
    v <= n && Divides(r, n) && forall m :: v <= m && Divides(r, m) ==> n <= m
  }

  /** Neither defined nor common, and not one of ld's own. */
  predicate Lacking(e: Sym) {
    e.kind == Undf && e.value == 0 && e.name != "_etext" && e.name != "_edata" && e.name != "_end"
  }

  ghost predicate Incomplete(tbl: seq<Sym>) {
    exists i :: 0 <= i < |tbl| && Lacking(tbl[i])
  }

  /** Where the segments begin, and whether relocation is kept. */
  ghost predicate SegmentsBegin(tbl: seq<Sym>, opts: Options, tsize: int, dsize: int, org: Origins, rflag: bool)
    requires opts.Ok()
  {
    && rflag == (opts.rflag || Incomplete(tbl))
    && org.text == opts.textbase && org.common == org.data + dsize
    && if opts.nflag || (opts.zflag && !rflag) then
         LeastMultiple(opts.pagesize, tsize + opts.textbase, org.data - opts.hsize)
       else LeastMultiple(4, tsize + opts.textbase, org.data - opts.hsize)
  }

  /** Where the storage for the commons among the first k entries ends, as the finished table has it. */
  function EndOfCommons(tbl: seq<Sym>, final: seq<Sym>, org: Origins, k: nat): int
    requires k <= |tbl| == |final|
  {
    if k == 0 then 0
    else if tbl[k - 1].kind == Undf && tbl[k - 1].value != 0 then final[k - 1].value - org.common + tbl[k - 1].value
    else EndOfCommons(tbl, final, org, k - 1)
  }

  /** Commons come one after the other, each at the next place that its size allows. */
  ghost predicate CommonsPlaced(tbl: seq<Sym>, final: seq<Sym>, org: Origins) {
    && |tbl| == |final|
    && (forall j :: 0 <= j < |tbl| && tbl[j].kind == Undf && tbl[j].value != 0 ==>
          && final[j].name == tbl[j].name && final[j].kind == Bss
          && var size, end, at := tbl[j].value, EndOfCommons(tbl, final, org, j), final[j].value - org.common;
          && (size >= 8 ==> LeastMultiple(8, end, at))
          && (4 <= size < 8 ==> LeastMultiple(4, end, at))
          && (size < 4 ==> LeastMultiple(2, end, at)))
    && LeastMultiple(4, EndOfCommons(tbl, final, org, |tbl|), org.bss - org.common)
  }

  /** Every definition is moved by the origin of its segment. */
  ghost predicate DefinitionsMoved(tbl: seq<Sym>, final: seq<Sym>, org: Origins) {
    && |tbl| == |final|
    && forall i :: 0 <= i < |tbl| ==>
      match tbl[i].kind
      case Abs => final[i] == tbl[i]
      case Text => final[i] == tbl[i].(value := tbl[i].value + org.text)
      case Data => final[i] == tbl[i].(value := tbl[i].value + org.data)
      case Bss => final[i] == tbl[i].(value := tbl[i].value + org.bss)
      case _ => true
  }

  /** ld's own names, where a program only refers to them, are the ends of the segments. */
  ghost predicate EndsNamed(tbl: seq<Sym>, final: seq<Sym>, org: Origins, tsize: int, dsize: int, bsize: int) {
    && |tbl| == |final|
    && forall i :: 0 <= i < |tbl| && tbl[i].kind == Undf && tbl[i].value == 0 ==>
      && (tbl[i].name == "_etext" ==> final[i] == Sym("_etext", Text, org.text + tsize))
      && (tbl[i].name == "_edata" ==> final[i] == Sym("_edata", Data, org.data + dsize))
      && (tbl[i].name == "_end" ==> final[i] == Sym("_end", Bss, org.bss + bsize))
      && (Lacking(tbl[i]) ==> final[i] == tbl[i])
  }

  /**
   * The segments begin where they should and definitions move with them. Commons get storage, and
   * the ends their names, if `-d` asks for it or relocation need not be kept.
   */
  ghost predicate Middled(tbl: seq<Sym>, opts: Options, tsize: int, dsize: int, bsize: int, final: seq<Sym>,
                          org: Origins, rflag: bool)
    requires opts.Ok()
  {
    && SegmentsBegin(tbl, opts, tsize, dsize, org, rflag)
    && DefinitionsMoved(tbl, final, org)
    && if !rflag || (opts.rflag && opts.dflag) then
         CommonsPlaced(tbl, final, org) && EndsNamed(tbl, final, org, tsize, dsize, bsize)
       else org.bss == org.common && forall i :: 0 <= i < |tbl| && tbl[i].kind == Undf ==> final[i] == tbl[i]
  }

  lemma {:induction false} RoundIsLeast(v: int, r: int)
    requires r > 0
    ensures LeastMultiple(r, v, Round(v, r))
  {
    var n := Round(v, r);
    forall m | v <= m && Divides(r, m)
      ensures n <= m
    {
      if m < n {
        DividesDifference(r, n, m);
        DivisorBound(r, n - m);
      }
    }
  }

  lemma {:induction false} MissingIsLacking(tbl: seq<Sym>)
    ensures SomeMissing(tbl) <==> Incomplete(tbl)
  {
    if i :| 0 <= i < |tbl| && Lacking(tbl[i]) {
      assert tbl[i].kind == Undf && tbl[i].value == 0 && !IsSpecial(tbl[i].name);
    }
    if i :| 0 <= i < |tbl| && tbl[i].kind == Undf && tbl[i].value == 0 && !IsSpecial(tbl[i].name) {
      assert Lacking(tbl[i]);
    }
  }

  lemma {:induction false} BeginsRight(tbl: seq<Sym>, opts: Options, tsize: int, dsize: int, bsize: int)
    requires opts.Ok()
    ensures SegmentsBegin(tbl, opts, tsize, dsize, OriginsFor(tbl, opts, tsize, dsize, bsize),
                          KeepsRelocation(tbl, opts))
  {
    hide Round, SomeMissing, Incomplete, Prepared, Used, LeastMultiple;
    MissingIsLacking(tbl);
    RoundIsLeast(tsize + opts.textbase, opts.pagesize);
    RoundIsLeast(tsize + opts.textbase, 4);
  }

  /** ld's own symbols are no commons. */
  lemma {:induction false} StillCommon(tbl: seq<Sym>, t: int, d: int, b: int, i: nat)
    requires i < |tbl|
    ensures var p := SetSpecials(tbl, t, d, b);
      && (WantsStorage(p[i]) <==> WantsStorage(tbl[i])) && (WantsStorage(tbl[i]) ==> p[i] == tbl[i])
  {
    OneSpecial(tbl, ETEXT, t, Text, i);
    var one := SetSpecial(tbl, ETEXT, t, Text);
    OneSpecial(one, EDATA, d, Data, i);
    OneSpecial(SetSpecial(one, EDATA, d, Data), END, b, Bss, i);
  }

  lemma {:induction false} OneSpecial(tbl: seq<Sym>, name: string, value: int, kind: Kind, i: nat)
    requires i < |tbl| && kind != Undf
    ensures var p := SetSpecial(tbl, name, value, kind);
      && (WantsStorage(p[i]) <==> WantsStorage(tbl[i])) && (WantsStorage(tbl[i]) ==> p[i] == tbl[i])
      && (tbl[i].kind == Undf && tbl[i].name != name ==> p[i] == tbl[i])
  {
  }

  /** The finished table ends its commons where the storage used does. */
  lemma {:induction false} EndIsUsed(tbl: seq<Sym>, p: seq<Sym>, org: Origins, k: nat)
    requires k <= |tbl| == |p|
    requires forall i :: 0 <= i < |tbl| ==>
      (WantsStorage(p[i]) <==> WantsStorage(tbl[i])) && (WantsStorage(tbl[i]) ==> p[i] == tbl[i])
    ensures EndOfCommons(tbl, AllFinal(AllAllotted(p), org), org, k) == Used(p, k)
  {
    if k > 0 {
      EndIsUsed(tbl, p, org, k - 1);
      assert AllFinal(AllAllotted(p), org)[k - 1] == Final(Allotted(p, k - 1), org);
    }
  }

  lemma {:induction false} PlacedRight(tbl: seq<Sym>, opts: Options, t: int, d: int, b: int)
    requires opts.Ok() && DefinesCommons(tbl, opts)
    ensures CommonsPlaced(tbl, FinalTable(tbl, opts, t, d, b), OriginsFor(tbl, opts, t, d, b))
  {
    hide SomeMissing, SetSpecials, DefinesCommons, DataBase, AllAllotted, AllFinal, Used, CommonsPlaced;
    var p, org := SetSpecials(tbl, t, d, b), OriginsFor(tbl, opts, t, d, b);
    forall i | 0 <= i < |tbl|
      ensures (WantsStorage(p[i]) <==> WantsStorage(tbl[i])) && (WantsStorage(tbl[i]) ==> p[i] == tbl[i])
    {
      StillCommon(tbl, t, d, b, i);
    }
    AllotmentPlaces(tbl, p, org);
  }

  /** What the storage used by the commons comes to in the finished table. */
  lemma {:induction false} AllotmentPlaces(tbl: seq<Sym>, p: seq<Sym>, org: Origins)
    requires |tbl| == |p| && org.bss - org.common == Round(Used(p, |p|), 4)
    requires forall i :: 0 <= i < |tbl| ==>
      (WantsStorage(p[i]) <==> WantsStorage(tbl[i])) && (WantsStorage(tbl[i]) ==> p[i] == tbl[i])
    ensures CommonsPlaced(tbl, AllFinal(AllAllotted(p), org), org)
  {
    hide LeastMultiple, Round, Used, AllFinal, AllAllotted, EndOfCommons;
    var final := AllFinal(AllAllotted(p), org);
    forall j | 0 <= j < |tbl| && WantsStorage(tbl[j])
      ensures final[j] == Sym(tbl[j].name, Bss, Position(p, j) + org.common)
      ensures EndOfCommons(tbl, final, org, j) == Used(p, j)
      ensures LeastMultiple(Alignment(tbl[j].value), Used(p, j), Position(p, j))
    {
      AllottedEntry(p, org, j);
      EndIsUsed(tbl, p, org, j);
      RoundIsLeast(Used(p, j), Alignment(tbl[j].value));
    }
    EndIsUsed(tbl, p, org, |tbl|);
    RoundIsLeast(Used(p, |p|), 4);
  }

  lemma AllottedEntry(p: seq<Sym>, org: Origins, j: nat)
    requires j < |p| && WantsStorage(p[j])
    ensures AllFinal(AllAllotted(p), org)[j] == Sym(p[j].name, Bss, Position(p, j) + org.common)
  {
    hide Position;
  }

  lemma {:induction false} MovedRight(tbl: seq<Sym>, opts: Options, t: int, d: int, b: int)
    requires opts.Ok()
    ensures DefinitionsMoved(tbl, FinalTable(tbl, opts, t, d, b), OriginsFor(tbl, opts, t, d, b))
  {
    hide OriginsFor, SetSpecials, DefinesCommons;
    forall i | 0 <= i < |tbl|
      ensures FinalTable(tbl, opts, t, d, b)[i] == Final(
        if DefinesCommons(tbl, opts) then Allotted(Prepared(tbl, opts, t, d, b), i)
        else Prepared(tbl, opts, t, d, b)[i],
        OriginsFor(tbl, opts, t, d, b))
    {
      FinalEntry(tbl, opts, t, d, b, i);
    }
  }

  lemma {:induction false} NamedRight(tbl: seq<Sym>, opts: Options, t: int, d: int, b: int)
    requires opts.Ok() && Distinct(tbl) && DefinesCommons(tbl, opts)
    ensures EndsNamed(tbl, FinalTable(tbl, opts, t, d, b), OriginsFor(tbl, opts, t, d, b), t, d, b)
  {
    hide OriginsFor, SetSpecials, DefinesCommons, Final, Allotted;
    forall i | 0 <= i < |tbl| && tbl[i].kind == Undf && tbl[i].value == 0
      ensures var e := FinalTable(tbl, opts, t, d, b)[i];
        if IsSpecial(tbl[i].name) then e == Final(SpecialEntry(tbl[i].name, t, d, b), OriginsFor(tbl, opts, t, d, b))
        else e == tbl[i]
    {
      NamedEntry(tbl, opts, t, d, b, i);
    }
    EndsAre(OriginsFor(tbl, opts, t, d, b), t, d, b);
  }

  lemma EndsAre(org: Origins, t: int, d: int, b: int)
    ensures Final(SpecialEntry("_etext", t, d, b), org) == Sym("_etext", Text, org.text + t)
    ensures Final(SpecialEntry("_edata", t, d, b), org) == Sym("_edata", Data, org.data + d)
    ensures Final(SpecialEntry("_end", t, d, b), org) == Sym("_end", Bss, org.bss + b)
  {
  }

  lemma {:induction false} NamedEntry(tbl: seq<Sym>, opts: Options, t: int, d: int, b: int, i: nat)
    requires opts.Ok() && Distinct(tbl) && DefinesCommons(tbl, opts)
    requires i < |tbl| && tbl[i].kind == Undf && tbl[i].value == 0
    ensures |FinalTable(tbl, opts, t, d, b)| == |tbl|
    ensures var e := FinalTable(tbl, opts, t, d, b)[i];
      if IsSpecial(tbl[i].name) then e == Final(SpecialEntry(tbl[i].name, t, d, b), OriginsFor(tbl, opts, t, d, b))
      else e == tbl[i]
  {
    hide OriginsFor, SetSpecials, FinalTable, DefinesCommons;
    assert Find(tbl, tbl[i].name) == i;
    FinalEntry(tbl, opts, t, d, b, i);
    if IsSpecial(tbl[i].name) {
      EndSymbols(tbl, opts, t, d, b, tbl[i].name);
    } else {
      NotSpecial(tbl, t, d, b, i);
    }
  }

  lemma {:induction false} NotSpecial(tbl: seq<Sym>, t: int, d: int, b: int, i: nat)
    requires i < |tbl| && tbl[i].kind == Undf && !IsSpecial(tbl[i].name)
    ensures SetSpecials(tbl, t, d, b)[i] == tbl[i]
  {
    OneSpecial(tbl, ETEXT, t, Text, i);
    var one := SetSpecial(tbl, ETEXT, t, Text);
    OneSpecial(one, EDATA, d, Data, i);
    OneSpecial(SetSpecial(one, EDATA, d, Data), END, b, Bss, i);
  }

  /** What `middle` computes is what it has to achieve. */
  lemma {:induction false} MiddleIsRight(tbl: seq<Sym>, opts: Options, t: int, d: int, b: int)
    requires opts.Ok() && Distinct(tbl)
    ensures Middled(tbl, opts, t, d, b, FinalTable(tbl, opts, t, d, b), OriginsFor(tbl, opts, t, d, b),
                    KeepsRelocation(tbl, opts))
  {
    BeginsRight(tbl, opts, t, d, b);
    MovedRight(tbl, opts, t, d, b);
    if DefinesCommons(tbl, opts) {
      PlacedRight(tbl, opts, t, d, b);
      NamedRight(tbl, opts, t, d, b);
    } else {
      NoStorage(tbl, opts, t, d, b);
    }
    hide FinalTable, OriginsFor, SegmentsBegin, DefinitionsMoved, CommonsPlaced, EndsNamed;
  }

  lemma {:induction false} NoStorage(tbl: seq<Sym>, opts: Options, t: int, d: int, b: int)
    requires opts.Ok() && !DefinesCommons(tbl, opts)
    ensures var org := OriginsFor(tbl, opts, t, d, b);
      && org.bss == org.common
      && forall i :: 0 <= i < |tbl| && tbl[i].kind == Undf ==> FinalTable(tbl, opts, t, d, b)[i] == tbl[i]
  {
    hide DefinesCommons;
  }

  /** `middle`. */
  method Middle(lk: Linker, opts: Options) returns (org: Origins, rflag: bool)
    requires opts.Ok()
    modifies lk`table
    ensures lk.table == FinalTable(old(lk.table), opts, lk.tsize, lk.dsize, lk.bsize)
    ensures org == OriginsFor(old(lk.table), opts, lk.tsize, lk.dsize, lk.bsize)
    ensures rflag == KeepsRelocation(old(lk.table), opts)
    ensures Distinct(old(lk.table)) ==>
      Middled(old(lk.table), opts, lk.tsize, lk.dsize, lk.bsize, lk.table, org, rflag)
  {
    hide SomeMissing, SetSpecials, AllAllotted, AllFinal, Used, Round, Middled;
    if Distinct(lk.table) {
      MiddleIsRight(lk.table, opts, lk.tsize, lk.dsize, lk.bsize);
    }
    var dflag, zflag;
    rflag, dflag, zflag := Flags(lk.table, opts);
    var database := Round(lk.tsize + opts.textbase, if opts.nflag || zflag then opts.pagesize else 4);
    database := database + opts.hsize;
    var csize := 0;
    if dflag || !rflag {
      lk.table := SetSpecials(lk.table, lk.tsize, lk.dsize, lk.bsize);
      csize := AllotCommons(lk);
    }
    csize := Round(csize, 4);
    assert Round(0, 4) == 0 by {
      RoundNothing();
    }
    org := Origins(opts.textbase, database, database + lk.dsize, database + lk.dsize + csize);
    assert org == OriginsFor(old(lk.table), opts, lk.tsize, lk.dsize, lk.bsize);
    Finish(lk, org);
  }

  /** The beginning of `middle`: what is asked for, unless something is missing. */
  method Flags(tbl: seq<Sym>, opts: Options) returns (rflag: bool, dflag: bool, zflag: bool)
    ensures rflag == KeepsRelocation(tbl, opts) && zflag == (opts.zflag && !rflag)
    ensures (dflag || !rflag) == DefinesCommons(tbl, opts)
  {
    rflag, dflag, zflag := opts.rflag, opts.dflag, opts.zflag;
    if !rflag {
      var missing := FindMissing(tbl);
      if missing {
        rflag, dflag := true, false;
      }
    }
    if rflag {
      zflag := false;
    }
  }

  lemma RoundNothing()
    ensures Round(0, 4) == 0
  {
    DivModUnique(0, 4, 0, 0);
  }

  method FindMissing(tbl: seq<Sym>) returns (missing: bool)
    ensures missing == SomeMissing(tbl)
  {
    var i := 0;
    while i < |tbl|
      invariant 0 <= i <= |tbl|
      invariant forall j :: 0 <= j < i ==> !(tbl[j].kind == Undf && tbl[j].value == 0 && !IsSpecial(tbl[j].name))
    {
      if tbl[i].kind == Undf && tbl[i].value == 0 && !IsSpecial(tbl[i].name) {
        return true;
      }
      i := i + 1;
    }
    missing := false;
  }

  /** The loop that assigns common locations. */
  method AllotCommons(lk: Linker) returns (csize: int)
    modifies lk`table
    ensures lk.table == AllAllotted(old(lk.table)) && csize == Used(old(lk.table), |old(lk.table)|)
  {
    csize := 0;
    ghost var was := lk.table;
    var i := 0;
    while i < |lk.table|
      invariant 0 <= i <= |lk.table| == |was|
      invariant csize == Used(was, i)
      invariant forall j :: 0 <= j < |was| ==> lk.table[j] == if j < i then Allotted(was, j) else was[j]
    {
      var e := lk.table[i];
      if WantsStorage(e) {
        csize := Round(csize, Alignment(e.value));
        lk.table := lk.table[i := Sym(e.name, Comm, csize)];
        csize := csize + e.value;
      }
      i := i + 1;
    }
  }

  /** The loop that sets the symbols to their final values. */
  method Finish(lk: Linker, org: Origins)
    modifies lk`table
    ensures lk.table == AllFinal(old(lk.table), org)
  {
    ghost var was := lk.table;
    var i := 0;
    while i < |lk.table|
      invariant 0 <= i <= |lk.table| == |was|
      invariant forall j :: 0 <= j < |was| ==> lk.table[j] == if j < i then Final(was[j], org) else was[j]
    {
      lk.table := lk.table[i := Final(lk.table[i], org)];
      i := i + 1;
    }
  }

  // ----- what becomes of commons and of ld's own symbols

  /** Two commons get disjoint storage between the data and the bss. */
  lemma {:induction false} CommonAddresses(tbl: seq<Sym>, org: Origins, i: nat, j: nat)
    requires SizesPositive(tbl) && i < j < |tbl| && WantsStorage(tbl[i]) && WantsStorage(tbl[j])
    requires org.bss == org.common + Round(Used(tbl, |tbl|), 4)
    ensures var a, b := AllFinal(AllAllotted(tbl), org)[i], AllFinal(AllAllotted(tbl), org)[j];
      && a.kind == Bss == b.kind
      && org.common <= a.value && a.value + tbl[i].value <= b.value && b.value + tbl[j].value <= org.bss
  {
    CommonsApart(tbl, i, j);
    CommonsApart(tbl, j, i);
  }

  /** The end of each segment, relative to its start. */
  function SpecialEntry(name: string, t: int, d: int, b: int): Sym {
    if name == ETEXT then Sym(name, Text, t) else if name == EDATA then Sym(name, Data, d) else Sym(name, Bss, b)
  }

  /** `_etext`, `_edata` and `_end`, where a program only refers to them, name the ends of the three segments. */
  lemma {:induction false} EndSymbols(tbl: seq<Sym>, opts: Options, t: int, d: int, b: int, name: string)
    requires opts.Ok() && Distinct(tbl) && IsSpecial(name) && DefinesCommons(tbl, opts)
    requires Find(tbl, name) < |tbl| && tbl[Find(tbl, name)].kind == Undf && tbl[Find(tbl, name)].value == 0
    ensures FinalTable(tbl, opts, t, d, b)[Find(tbl, name)] ==
      Final(SpecialEntry(name, t, d, b), OriginsFor(tbl, opts, t, d, b))
  {
    SpecialsSet(tbl, t, d, b, name);
    FinalEntry(tbl, opts, t, d, b, Find(tbl, name));
  }

  lemma {:induction false} FinalEntry(tbl: seq<Sym>, opts: Options, t: int, d: int, b: int, i: nat)
    requires opts.Ok() && i < |tbl|
    ensures |Prepared(tbl, opts, t, d, b)| == |tbl| == |FinalTable(tbl, opts, t, d, b)|
    ensures FinalTable(tbl, opts, t, d, b)[i] == Final(
      if DefinesCommons(tbl, opts) then Allotted(Prepared(tbl, opts, t, d, b), i) else Prepared(tbl, opts, t, d, b)[i],
      OriginsFor(tbl, opts, t, d, b))
  {
  }

  lemma {:induction false} SpecialsSet(tbl: seq<Sym>, t: int, d: int, b: int, name: string)
    requires Distinct(tbl) && IsSpecial(name)
    requires Find(tbl, name) < |tbl| && tbl[Find(tbl, name)].kind == Undf && tbl[Find(tbl, name)].value == 0
    ensures SetSpecials(tbl, t, d, b)[Find(tbl, name)] == SpecialEntry(name, t, d, b)
  {
    var one := SetSpecial(tbl, ETEXT, t, Text);
    var two := SetSpecial(one, EDATA, d, Data);
  }

}
