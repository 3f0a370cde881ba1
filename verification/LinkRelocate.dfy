/**
 * `load2` and `load2td` of bin/ld.c: resolving the references of one object, and what
 * the patched words mean.
 */
module LinkRelocate {
  import opened Numbers
  import opened LinkPassOne
  import opened LinkMiddle
  import opened LinkPassTwo

  const LHSIZ: nat := 31

  // ----- the local symbol numbers of one object

  /** Maps a symbol number of the object to an entry of the symbol table. */
  datatype LocalSym = LocalSym(index: nat, symbol: nat)

  predicate IsUndefinedRef(o: Object, k: nat) {
    k < |o.syms| && o.syms[k].ext && o.syms[k].kind == Undf
  }

  /** The chain of the hash table for symbol numbers, newest first, after the first n symbols. */
  function Chain(o: Object, final: seq<Sym>, n: nat, h: nat): seq<LocalSym>
    requires n <= |o.syms|
  {
    if n == 0 then []
    else if IsUndefinedRef(o, n - 1) && (n - 1) % LHSIZ == h then
      [LocalSym(n - 1, Find(final, o.syms[n - 1].name))] + Chain(o, final, n - 1, h)
    else Chain(o, final, n - 1, h)
  }

  /** The search along a chain: an entry for the number, or the end. */
  function Search(chain: seq<LocalSym>, index: nat): (r: int)
    ensures -1 <= r
  {
    if chain == [] then -1
    else if chain[0].index == index then chain[0].symbol
    else Search(chain[1..], index)
  }

  /** The hash table maps every undefined external to its entry, and nothing else to anything. */
  lemma {:induction false} SearchFinds(o: Object, final: seq<Sym>, n: nat, index: nat)
    requires n <= |o.syms|
    ensures Search(Chain(o, final, n, index % LHSIZ), index) ==
      if index < n && IsUndefinedRef(o, index) then Find(final, o.syms[index].name) else -1
  {
    if n > 0 {
      SearchFinds(o, final, n - 1, index);
    }
  }

  // ----- one relocation

  /** The displacements in force while an object is loaded: ctrel, cdrel, cbrel. */
  datatype Rel = Rel(text: int, data: int, bss: int)

  datatype Option<T> = None | Some(value: T)

  /** What `load2td` adds to the word at a site, or an error. */
  function Amount(o: Object, final: seq<Sym>, rel: Rel, creloc: int, r: Reloc): Option<int> {
    var back := if r.pcrel then creloc else 0;
    match r.target
    case Extern(symno) =>
      if !IsUndefinedRef(o, symno) then None
      else
        var i := Find(final, o.syms[symno].name);
        if i == |final| then None
        else Some((if final[i].kind == Undf then 0 else final[i].value) - back)
    case Local(kind) =>
      match kind
      case Text => Some(rel.text - back)
      case Data => Some(rel.data - back)
      case Bss => Some(rel.bss - back)
      case Abs => Some(0 - back)
      case _ => None
  }

  /** Every relocation lies within the code. */
  predicate WithinCode(rs: seq<Reloc>, code: seq<byte>) {
    forall j :: 0 <= j < |rs| ==> rs[j].addr + 4 <= |code|
  }

  function Sites(rs: seq<Reloc>): (s: seq<nat>)
    ensures |s| == |rs|
    ensures forall i :: 0 <= i < |rs| ==> s[i] == rs[i].addr
  {
    seq(|rs|, i requires 0 <= i < |rs| => rs[i].addr)
  }

  function AmountOr0(o: Object, final: seq<Sym>, rel: Rel, creloc: int, r: Reloc): int {
    match Amount(o, final, rel, creloc, r) case Some(d) => d case None => 0
  }

  function Amounts(o: Object, final: seq<Sym>, rel: Rel, creloc: int, rs: seq<Reloc>): (d: seq<int>)
    ensures |d| == |rs|
    ensures forall i :: 0 <= i < |rs| ==> d[i] == AmountOr0(o, final, rel, creloc, rs[i])
  {
    seq(|rs|, i requires 0 <= i < |rs| => AmountOr0(o, final, rel, creloc, rs[i]))
  }

  /** The code of a segment after all its relocations. */
  function RelocatedCode(o: Object, final: seq<Sym>, rel: Rel, creloc: int, rs: seq<Reloc>, code: seq<byte>): seq<byte>
    requires WithinCode(rs, code)
  {
    PatchedFirst(code, Sites(rs), Amounts(o, final, rel, creloc, rs), |rs|)
  }

  method SearchChain(chain: seq<LocalSym>, index: nat) returns (r: int)
    ensures r == Search(chain, index)
  {
    var lp := 0;
    while lp < |chain| && chain[lp].index != index
      invariant 0 <= lp <= |chain|
      invariant Search(chain, index) == Search(chain[lp..], index)
    {
      assert chain[lp..][1..] == chain[lp + 1..];
      lp := lp + 1;
    }
    r := if lp < |chain| then chain[lp].symbol else -1;
  }

  lemma FourBytes(w: nat)
    ensures Bytes(w, 4) == [w % 256, w / 256 % 256, w / 256 / 256 % 256, w / 256 / 256 / 256 % 256]
  {
    var a, b, c := w / 256, w / 256 / 256, w / 256 / 256 / 256;
    assert Bytes(c, 1) == [c % 256];
    assert Bytes(b, 2) == [b % 256] + Bytes(c, 1);
    assert Bytes(a, 3) == [a % 256] + Bytes(b, 2);
    assert Bytes(w, 4) == [w % 256] + Bytes(a, 3);
  }

  method StoreLongIn(code: array<byte>, a: nat, w: nat)
    requires a + 4 <= code.Length && w < WORD
    modifies code
    ensures code[..] == WithLong(old(code[..]), a, w)
  {
    hide Bytes;
    ghost var was := code[..];
    FourBytes(w);
    code[a] := w % 256;
    code[a + 1] := w / 256 % 256;
    code[a + 2] := w / 256 / 256 % 256;
    code[a + 3] := w / 256 / 256 / 256 % 256;
    assert code[..] == was[..a] + Bytes(w, 4) + was[a + 4..];
  }

  method PatchSite(code: array<byte>, a: nat, d: int)
    requires a + 4 <= code.Length
    modifies code
    ensures code[..] == Patched(old(code[..]), a, d)
  {
    var tw := LongAt(code[..], a);
    StoreLongIn(code, a, (tw + d) % WORD);
  }

  ghost predicate HashTableFor(o: Object, final: seq<Sym>, lochash: seq<seq<LocalSym>>) {
    && |lochash| == LHSIZ
    && (forall h :: 0 <= h < LHSIZ ==> lochash[h] == Chain(o, final, |o.syms|, h))
    && (forall k: nat :: IsUndefinedRef(o, k) ==> Find(final, o.syms[k].name) < |final|)
  }

  /** The part of the loop of `load2td` that finds out by how much the word changes. */
  method Resolve(o: Object, final: seq<Sym>, lochash: seq<seq<LocalSym>>, rel: Rel, creloc: int, r: Reloc)
    returns (d: Option<int>)
    requires HashTableFor(o, final, lochash)
    ensures d == Amount(o, final, rel, creloc, r)
  {
    var plus := 0;
    match r.target {
      case Extern(symno) =>
        SearchFinds(o, final, |o.syms|, symno);
        var sp := SearchChain(lochash[symno % LHSIZ], symno);
        if sp == -1 {
          return None;
        }
        if final[sp].kind != Undf {
          plus := final[sp].value;
        }
      case Local(kind) =>
        match kind {
          case Text => plus := rel.text;
          case Data => plus := rel.data;
          case Bss => plus := rel.bss;
          case Abs =>
          case _ => return None;
        }
    }
    if r.pcrel {
      plus := plus - creloc;
    }
    return Some(plus);
  }

  /** `load2td`: the relocations of one segment, in order. */
  method RelocateSegment(o: Object, final: seq<Sym>, lochash: seq<seq<LocalSym>>, rel: Rel, creloc: int,
                         rs: seq<Reloc>, code: array<byte>)
    returns (ok: bool)
    requires HashTableFor(o, final, lochash)
    requires WithinCode(rs, code[..])
    modifies code
    ensures ok <==> forall i :: 0 <= i < |rs| ==> Amount(o, final, rel, creloc, rs[i]).Some?
    ensures ok ==> code[..] == RelocatedCode(o, final, rel, creloc, rs, old(code[..]))
  {
    hide HashTableFor, Amount, Patched;
    ghost var was := code[..];
    var n := 0;
    while n < |rs|
      invariant 0 <= n <= |rs|
      invariant forall i :: 0 <= i < n ==> Amount(o, final, rel, creloc, rs[i]).Some?
      invariant code[..] == PatchedFirst(was, Sites(rs), Amounts(o, final, rel, creloc, rs), n)
    {
      var r := rs[n];
      var d := Resolve(o, final, lochash, rel, creloc, r);
      if d.None? {
        return false;
      }
      PatchSite(code, r.addr, d.value);
      n := n + 1;
    }
    ok := true;
  }

  // ----- load2

  /** The final table has an entry for every external name of the object. */
  ghost predicate NamesKnown(o: Object, final: seq<Sym>) {
    forall k :: 0 <= k < |o.syms| && o.syms[k].ext ==> Present(final, o.syms[k].name)
  }

  function RelFor(o: Object, t: int, d: int, b: int): Rel {
    Rel(Displacement(o, Text, t, d, b), Displacement(o, Data, t, d, b), Displacement(o, Bss, t, d, b))
  }

  /** The complaint of `load2` about symbol k when the origins are t, d and b. */
  predicate Differs(o: Object, final: seq<Sym>, t: int, d: int, b: int, k: nat)
    requires k < |o.syms|
  {
    var s := Relocated(o, o.syms[k], t, d, b);
    && s.ext && s.kind != Undf
    && Find(final, s.name) < |final|
    && !(final[Find(final, s.name)].kind == s.kind && final[Find(final, s.name)].value == s.value)
  }

  /** The two calls of `load2td`: the text moves by ctrel, the data by cdrel. */
  method RelocateBoth(o: Object, final: seq<Sym>, lochash: seq<seq<LocalSym>>, rel: Rel,
                      text: array<byte>, data: array<byte>)
    returns (ok: bool)
    requires HashTableFor(o, final, lochash) && text != data
    requires WithinCode(o.treloc, text[..]) && WithinCode(o.dreloc, data[..])
    modifies text, data
    ensures ok <==>
      && (forall i :: 0 <= i < |o.treloc| ==> Amount(o, final, rel, rel.text, o.treloc[i]).Some?)
      && (forall i :: 0 <= i < |o.dreloc| ==> Amount(o, final, rel, rel.data, o.dreloc[i]).Some?)
    ensures ok ==>
      && text[..] == RelocatedCode(o, final, rel, rel.text, o.treloc, old(text[..]))
      && data[..] == RelocatedCode(o, final, rel, rel.data, o.dreloc, old(data[..]))
  {
    ok := RelocateSegment(o, final, lochash, rel, rel.text, o.treloc, text);
    if ok {
      ok := RelocateSegment(o, final, lochash, rel, rel.data, o.dreloc, data);
    }
  }

  class PassTwo {
    var torigin: int
    var dorigin: int
    var borigin: int

    constructor (org: Origins)
      ensures torigin == org.text && dorigin == org.data && borigin == org.bss
    {
      torigin, dorigin, borigin := org.text, org.data, org.bss;
    }

    /** The loop of `load2` over the symbols: complaints, and the hash table of local symbol numbers. */
    method ReadSymbols(o: Object, final: seq<Sym>) returns (lochash: seq<seq<LocalSym>>, complaints: seq<nat>)
      requires NamesKnown(o, final)
      ensures HashTableFor(o, final, lochash)
      ensures forall k: nat :: k in complaints <==> k < |o.syms| && Differs(o, final, torigin, dorigin, borigin, k)
    {
      lochash := seq(LHSIZ, _ => []);
      complaints := [];
      var symno := 0;
      while symno < |o.syms|
        invariant 0 <= symno <= |o.syms| && |lochash| == LHSIZ
        invariant forall h :: 0 <= h < LHSIZ ==> lochash[h] == Chain(o, final, symno, h)
        invariant forall k: nat :: k in complaints <==> k < symno && Differs(o, final, torigin, dorigin, borigin, k)
      {
        var cursym := Relocated(o, o.syms[symno], torigin, dorigin, borigin);
        if cursym.ext {
          var sp := Find(final, cursym.name);
          assert Present(final, o.syms[symno].name);
          if cursym.kind == Undf {
            var h := symno % LHSIZ;
            lochash := lochash[h := [LocalSym(symno, sp)] + lochash[h]];
          } else if final[sp].kind != cursym.kind || final[sp].value != cursym.value {
            complaints := complaints + [symno];
          }
        }
        symno := symno + 1;
      }
    }

    /** `load2` on one object. */
    method Load2(o: Object, final: seq<Sym>)
      returns (ok: bool, complaints: seq<nat>, text: array<byte>, data: array<byte>)
      requires NamesKnown(o, final)
      requires WithinCode(o.treloc, o.text) && WithinCode(o.dreloc, o.data)
      modifies this
      ensures forall k: nat :: k in complaints <==>
        k < |o.syms| && Differs(o, final, old(torigin), old(dorigin), old(borigin), k)
      ensures fresh(text) && fresh(data)
      ensures ok ==>
        var rel := RelFor(o, old(torigin), old(dorigin), old(borigin));
        && text[..] == RelocatedCode(o, final, rel, rel.text, o.treloc, o.text)
        && data[..] == RelocatedCode(o, final, rel, rel.data, o.dreloc, o.data)
      ensures ok <==>
        var rel := RelFor(o, old(torigin), old(dorigin), old(borigin));
        && (forall i :: 0 <= i < |o.treloc| ==> Amount(o, final, rel, rel.text, o.treloc[i]).Some?)
        && (forall i :: 0 <= i < |o.dreloc| ==> Amount(o, final, rel, rel.data, o.dreloc[i]).Some?)
      ensures ok ==>
        && torigin == old(torigin) + |o.text|
        && dorigin == old(dorigin) + RoundLong(|o.data|)
        && borigin == old(borigin) + RoundLong(o.bss)
    {
      var ctrel := torigin;
      var cdrel := dorigin - o.dataStart;
      var cbrel := borigin - o.dataStart - |o.data|;
      hide HashTableFor, RelocatedCode, Amount, Differs;
      var lochash;
      lochash, complaints := ReadSymbols(o, final);
      var rel := Rel(ctrel, cdrel, cbrel);
      text := new byte[|o.text|](i requires 0 <= i < |o.text| => o.text[i]);
      data := new byte[|o.data|](i requires 0 <= i < |o.data| => o.data[i]);
      assert text[..] == o.text && data[..] == o.data;
      ok := RelocateBoth(o, final, lochash, rel, text, data);
      torigin := torigin + |o.text|;
      dorigin := dorigin + RoundLong(|o.data|);
      borigin := borigin + RoundLong(o.bss);
    }
  }

  // ----- what the patched words mean

  /** Equal as words. */
  predicate Same(a: int, b: int) {
    (a - b) % WORD == 0
  }

  lemma {:induction false} SameAfter(w: int, x: int, d: int, y: int)
    requires Same(w, x) && y == x + d
    ensures Same((w + d) % WORD, y)
  {
    var n := w + d;
    assert n == WORD * (n / WORD) + n % WORD;
    assert n % WORD - y == (w - x) - WORD * (n / WORD);
    ModShift(w - x, WORD, -(n / WORD));
  }

  /** A reference to an address, stored relative to its own site if it is pc-relative. */
  function Reference(address: int, pcrel: bool, site: int): int {
    if pcrel then address - site else address
  }

  /** The place of relocation i of a segment of object m. */
  function Site(m: nat, segment: Kind, rs: seq<Reloc>, i: nat): Loc
    requires i < |rs|
  {
    Loc(m, segment, rs[i].addr)
  }

  /** Before linking, the word at relocation i refers to `target` in the object's own numbering. */
  predicate RefersTo(objs: seq<Object>, m: nat, segment: Kind, rs: seq<Reloc>, code: seq<byte>, i: nat, target: int)
    requires m < |objs| && i < |rs| && WithinCode(rs, code)
  {
    Same(LongAt(code, rs[i].addr), Reference(target, rs[i].pcrel, ObjectAddress(objs, Site(m, segment, rs, i))))
  }

  /** The segment of object m as pass 2 writes it. */
  function LinkedCode(objs: seq<Object>, org: Origins, final: seq<Sym>, m: nat, segment: Kind, rs: seq<Reloc>,
                      code: seq<byte>): (c: seq<byte>)
    requires m < |objs| && WithinCode(rs, code)
    ensures |c| == |code|
  {
    var rel := Rel(Moved(objs, org, m, Text), Moved(objs, org, m, Data), Moved(objs, org, m, Bss));
    RelocatedCode(objs[m], final, rel, Moved(objs, org, m, segment), rs, code)
  }

  /** After linking, it refers to `target` in the output. */
  predicate LinkedRefersTo(objs: seq<Object>, org: Origins, final: seq<Sym>, m: nat, segment: Kind, rs: seq<Reloc>,
                           code: seq<byte>, i: nat, target: int)
    requires m < |objs| && i < |rs| && WithinCode(rs, code)
  {
    Same(LongAt(LinkedCode(objs, org, final, m, segment, rs, code), rs[i].addr),
         Reference(target, rs[i].pcrel, Address(objs, org, Site(m, segment, rs, i))))
  }

  /** The word at a relocation site after linking. */
  lemma {:induction false} PatchedWord(o: Object, final: seq<Sym>, rel: Rel, creloc: int, rs: seq<Reloc>,
    code: seq<byte>, i: nat)
    requires i < |rs| && Apart(Sites(rs)) && WithinCode(rs, code)
    requires Amount(o, final, rel, creloc, rs[i]).Some?
    ensures var c := RelocatedCode(o, final, rel, creloc, rs, code);
      && LongAt(c, rs[i].addr) == (LongAt(code, rs[i].addr) + Amount(o, final, rel, creloc, rs[i]).value) % WORD
      && forall p :: 0 <= p < |code| && Outside(Sites(rs), |rs|, p) ==> c[p] == code[p]
  {
    PatchedSites(code, Sites(rs), Amounts(o, final, rel, creloc, rs), |rs|);
    assert Sites(rs)[i] == rs[i].addr;
  }

  /**
   * A word that refers to a place of its own object (plus `a`) refers, after linking, to
   * where that place has been loaded (plus `a`).
   */
  lemma {:induction false} LocalReferenceMoves(objs: seq<Object>, org: Origins, final: seq<Sym>, m: nat, segment: Kind,
                                               rs: seq<Reloc>, code: seq<byte>, i: nat, place: Loc, a: int)
    requires m < |objs| && i < |rs| && Apart(Sites(rs)) && WithinCode(rs, code)
    requires segment == Text || segment == Data
    requires rs[i].target == Local(place.kind) && place.m == m && place.kind != Undf && place.kind != Comm
    requires RefersTo(objs, m, segment, rs, code, i, ObjectAddress(objs, place) + a)
    ensures LinkedRefersTo(objs, org, final, m, segment, rs, code, i, Address(objs, org, place) + a)
  {
    var site := Site(m, segment, rs, i);
    var rel := Rel(Moved(objs, org, m, Text), Moved(objs, org, m, Data), Moved(objs, org, m, Bss));
    var creloc := Moved(objs, org, m, segment);
    PatchedWord(objs[m], final, rel, creloc, rs, code, i);
    var d := Amount(objs[m], final, rel, creloc, rs[i]).value;
    assert d == Moved(objs, org, m, place.kind) - if rs[i].pcrel then creloc else 0;
    SameAfter(LongAt(code, rs[i].addr),
              Reference(ObjectAddress(objs, place) + a, rs[i].pcrel, ObjectAddress(objs, site)), d,
              Reference(Address(objs, org, place) + a, rs[i].pcrel, Address(objs, org, site)));
  }

  /** The same for a reference through the symbol table to a defined name. */
  lemma {:induction false} WordThroughTable(objs: seq<Object>, org: Origins, final: seq<Sym>, m: nat, segment: Kind,
                                            rs: seq<Reloc>, code: seq<byte>, i: nat, address: int, a: int)
    requires m < |objs| && i < |rs| && Apart(Sites(rs)) && WithinCode(rs, code)
    requires segment == Text || segment == Data
    requires rs[i].target.Extern? && IsUndefinedRef(objs[m], rs[i].target.symno)
    requires NameAt(final, objs[m].syms[rs[i].target.symno].name, address)
    requires RefersTo(objs, m, segment, rs, code, i, a)
    ensures LinkedRefersTo(objs, org, final, m, segment, rs, code, i, address + a)
  {
    var site := Site(m, segment, rs, i);
    var rel := Rel(Moved(objs, org, m, Text), Moved(objs, org, m, Data), Moved(objs, org, m, Bss));
    var creloc := Moved(objs, org, m, segment);
    PatchedWord(objs[m], final, rel, creloc, rs, code, i);
    var d := Amount(objs[m], final, rel, creloc, rs[i]).value;
    SameAfter(LongAt(code, rs[i].addr), Reference(a, rs[i].pcrel, ObjectAddress(objs, site)), d,
              Reference(address + a, rs[i].pcrel, Address(objs, org, site)));
  }

  /**
   * The whole of linking: a word that refers to an external name (plus `a`), the name being
   * defined once, at `place` of a loaded object, and never common, refers after linking to
   * where that place has been loaded (plus `a`).
   */
  lemma {:induction false} ExternalReferenceResolves(
    tbl: seq<Sym>, objs: seq<Object>, seen: seq<Object>, opts: Options, name: string, m: nat, segment: Kind,
    rs: seq<Reloc>, code: seq<byte>, i: nat, k: nat, place: Loc, a: int)
    requires opts.Ok() && PassOneOk(tbl, objs, seen)
    requires m < |objs| && i < |rs| && Apart(Sites(rs)) && WithinCode(rs, code)
    requires segment == Text || segment == Data
    requires rs[i].target.Extern? && IsUndefinedRef(objs[m], rs[i].target.symno)
    requires objs[m].syms[rs[i].target.symno].name == name
    requires place.m < |objs| && OnlyDefinition(objs, seen, name, place.m, k)
    requires place.kind == objs[place.m].syms[k].kind && ObjectAddress(objs, place) == objs[place.m].syms[k].value
    requires RefersTo(objs, m, segment, rs, code, i, a)
    ensures var final, org := LinkedTable(tbl, objs, opts), LinkedOrigins(tbl, objs, opts);
      LinkedRefersTo(objs, org, final, m, segment, rs, code, i, Address(objs, org, place) + a)
  {
    hide *;
    var final, org := LinkedTable(tbl, objs, opts), LinkedOrigins(tbl, objs, opts);
    DefinedOncePlace(tbl, objs, seen, opts, name, k, place);
    WordThroughTable(objs, org, final, m, segment, rs, code, i, Address(objs, org, place), a);
  }
}
