/**
 * The symbol table of bin/ld.c: segments of NSYM symbols, each with a hash table of twice
 * as many buckets and quadratic rehash; symbols are only ever undone last in, first out.
 */
module SymbolTable {
  import opened Numbers
  import opened QuadraticProbe

  const NSYM: nat := 1103
  const HSIZE: nat := 2206
  const NSEG: nat := 40
  const EMPTY := -1

  datatype Sym = Sym(name: string, kind: int, value: int, hash: int)

  /** One segment: its symbols in order of entry, and its buckets holding indices into them. */
  datatype Segment = Segment(syms: seq<Sym>, buckets: seq<int>)

  // ----- hashing and probing

  /** The 32-bit sum sh = 2 * sh + c over the name. */
  function HashSum(name: string): nat {
    if name == "" then 0
    else (2 * HashSum(name[..|name| - 1]) + name[|name| - 1] as int) % 0x1_0000_0000
  }

  function Hash(name: string): (h: nat)
    ensures h < HSIZE
  {
    HashSum(name) % 0x8000_0000 % HSIZE
  }

  /** The bucket of the k-th probe: each time the increment grows by 2, wrapping at the end of the table. */
  function Probe(h: nat, k: nat): (b: nat)
    requires h < HSIZE && k <= NSYM
    ensures b < HSIZE
  {
    if k == 0 then h
    else
      var b := Probe(h, k - 1) + 2 * k - 1;
      if b >= HSIZE then b - HSIZE else b
  }

  lemma {:induction false} ProbeIsQuadratic(h: nat, k: nat)
    requires h < HSIZE && k <= NSYM
    ensures Probe(h, k) == (h + k * k) % HSIZE
  {
    if k == 0 {
      DivModUnique(h, HSIZE, 0, h);
    } else {
      ProbeIsQuadratic(h, k - 1);
      assert k * k == (k - 1) * (k - 1) + 2 * k - 1;
      var n := h + (k - 1) * (k - 1);
      var q, r := n / HSIZE, n % HSIZE;
      assert n == HSIZE * q + r;
      if r + 2 * k - 1 >= HSIZE {
        DivModUnique(n + 2 * k - 1, HSIZE, q + 1, r + 2 * k - 1 - HSIZE);
      } else {
        DivModUnique(n + 2 * k - 1, HSIZE, q, r + 2 * k - 1);
      }
    }
  }

  lemma ProbesDiffer(h: nat, m: nat, k: nat)
    requires h < HSIZE && m < k < NSYM
    ensures Probe(h, m) != Probe(h, k)
  {
    PIsPrime();
    ProbeIsQuadratic(h, m);
    ProbeIsQuadratic(h, k);
    DistinctModTwiceP(P, h, m, k);
  }

  // ----- one segment

  /** Symbol j was put where the k-th probe for its name led, past buckets taken by earlier symbols. */
  ghost predicate Placed(s: Segment, j: nat, k: nat)
    requires j < |s.syms| && |s.buckets| == HSIZE
  {
    && k < NSYM
    && s.syms[j].hash == Probe(Hash(s.syms[j].name), k)
    && forall m :: 0 <= m < k ==> 0 <= s.buckets[Probe(Hash(s.syms[j].name), m)] < j
  }

  ghost predicate HasPlace(s: Segment, j: nat)
    requires j < |s.syms| && |s.buckets| == HSIZE
  {
    exists k: nat :: Placed(s, j, k)
  }

  ghost predicate BucketsMatch(s: Segment) {
    && |s.buckets| == HSIZE && |s.syms| <= NSYM
    && (forall j :: 0 <= j < |s.syms| ==> 0 <= s.syms[j].hash < HSIZE && s.buckets[s.syms[j].hash] == j)
    && (forall b :: 0 <= b < HSIZE ==>
          s.buckets[b] == EMPTY || (0 <= s.buckets[b] < |s.syms| && s.syms[s.buckets[b]].hash == b))
  }

  ghost predicate SegmentOk(s: Segment) {
    && BucketsMatch(s)
    && (forall j :: 0 <= j < |s.syms| ==> HasPlace(s, j))
    && (forall i, j :: 0 <= i < j < |s.syms| ==> s.syms[i].name != s.syms[j].name)
  }

  ghost predicate Defines(s: Segment, name: string) {
    exists j :: 0 <= j < |s.syms| && s.syms[j].name == name
  }

  /** The first k probes all meet other names. */
  ghost predicate PassedOver(s: Segment, name: string, k: nat)
    requires BucketsMatch(s)
  {
    && k <= NSYM
    && forall m :: 0 <= m < k ==>
         var b := Probe(Hash(name), m);
         s.buckets[b] != EMPTY && s.syms[s.buckets[b]].name != name
  }

  ghost predicate Vacant(s: Segment, name: string, k: nat)
    requires BucketsMatch(s)
  {
    k < NSYM && PassedOver(s, name, k) && s.buckets[Probe(Hash(name), k)] == EMPTY
  }

  /** A vacant probe, or NSYM probes over other names, prove that the name is not there. */
  lemma NotDefined(s: Segment, name: string, k: nat)
    requires SegmentOk(s) && PassedOver(s, name, k)
    requires k == NSYM || Vacant(s, name, k)
    ensures !Defines(s, name)
  {
    forall j | 0 <= j < |s.syms|
      ensures s.syms[j].name != name
    {
      assert HasPlace(s, j);
      var kj: nat :| Placed(s, j, kj);
    }
  }

  /** In a segment that is not full some probe is vacant before NSYM of them have been made. */
  lemma NotExhausted(s: Segment, name: string)
    requires SegmentOk(s) && PassedOver(s, name, NSYM)
    ensures |s.syms| == NSYM
  {
    var h := Hash(name);
    var hit := seq(NSYM, m requires 0 <= m < NSYM && s.buckets[Probe(h, m)] >= 0 => s.buckets[Probe(h, m)] as nat);
    forall i, j | 0 <= i < j < NSYM
      ensures hit[i] != hit[j]
    {
      ProbesDiffer(h, i, j);
    }
    Pigeonhole(hit, |s.syms|);
  }

  /** The segment after a symbol was put into bucket b. */
  function Extended(s: Segment, x: Sym): Segment
    requires 0 <= x.hash < |s.buckets|
  {
    Segment(s.syms + [x], s.buckets[x.hash := |s.syms|])
  }

  lemma ExtendedOk(s: Segment, x: Sym, k: nat)
    requires SegmentOk(s) && |s.syms| < NSYM
    requires Vacant(s, x.name, k) && x.hash == Probe(Hash(x.name), k)
    ensures SegmentOk(Extended(s, x))
  {
    var t := Extended(s, x);
    NotDefined(s, x.name, k);
    forall j | 0 <= j < |t.syms|
      ensures HasPlace(t, j)
    {
      if j < |s.syms| {
        assert HasPlace(s, j);
        var kj: nat :| Placed(s, j, kj);
        assert Placed(t, j, kj);
      } else {
        assert Placed(t, j, k);
      }
    }
  }

  /** The segment without its last symbol. */
  function Shortened(s: Segment): Segment
    requires s.syms != [] && 0 <= s.syms[|s.syms| - 1].hash < |s.buckets|
  {
    Segment(s.syms[..|s.syms| - 1], s.buckets[s.syms[|s.syms| - 1].hash := EMPTY])
  }

  lemma ShortenedOk(s: Segment)
    requires SegmentOk(s) && s.syms != []
    ensures SegmentOk(Shortened(s))
  {
    var t := Shortened(s);
    forall j | 0 <= j < |t.syms|
      ensures HasPlace(t, j)
    {
      assert HasPlace(s, j);
      var k: nat :| Placed(s, j, k);
      forall m | 0 <= m < k
        ensures 0 <= t.buckets[Probe(Hash(t.syms[j].name), m)] < j
      {
        assert 0 <= s.buckets[Probe(Hash(s.syms[j].name), m)] < j;
      }
      assert Placed(t, j, k);
    }
  }

  /** Undoing an entry restores the segment exactly. */
  lemma ShortenExtended(s: Segment, x: Sym)
    requires 0 <= x.hash < |s.buckets| && s.buckets[x.hash] == EMPTY
    ensures Shortened(Extended(s, x)) == s
  {
  }

  // ----- the whole table

  ghost predicate PathOpen(s: Segment, name: string) {
    BucketsMatch(s) && exists k: nat :: Vacant(s, name, k)
  }

  lemma OpenPathNotDefined(s: Segment, name: string)
    requires SegmentOk(s) && PathOpen(s, name)
    ensures !Defines(s, name)
  {
    var k: nat :| Vacant(s, name, k);
    NotDefined(s, name, k);
  }

  /**
   * Segments below the current one are full, those above it are unused; later names found
   * their way past earlier segments.
   */
  ghost predicate TableOk(segs: seq<Segment>, csymseg: int) {
    && |segs| == NSEG && -1 <= csymseg < NSEG
    && (forall g :: 0 <= g < NSEG ==> SegmentOk(segs[g]))
    && (forall g :: 0 <= g < csymseg ==> |segs[g].syms| == NSYM)
    && (forall g :: csymseg < g < NSEG ==> segs[g].syms == [])
    && (forall g, g2, j :: 0 <= g < g2 < NSEG && 0 <= j < |segs[g2].syms| ==> PathOpen(segs[g], segs[g2].syms[j].name))
  }

  ghost predicate Known(segs: seq<Segment>, name: string) {
    exists g :: 0 <= g < |segs| && Defines(segs[g], name)
  }

  /** Bucket b of the current segment is where `name` belongs. */
  ghost predicate Belongs(segs: seq<Segment>, csymseg: int, name: string, b: nat)
    requires TableOk(segs, csymseg)
  {
    && csymseg >= 0 && |segs[csymseg].syms| < NSYM
    && (exists k: nat :: Vacant(segs[csymseg], name, k) && b == Probe(Hash(name), k))
    && forall g :: 0 <= g < csymseg ==> PathOpen(segs[g], name)
  }

  lemma OpenPath(s: Segment, name: string, k: nat)
    requires SegmentOk(s) && Vacant(s, name, k)
    ensures PathOpen(s, name)
  {
  }

  lemma FreeHere(segs: seq<Segment>, csymseg: int, name: string, k: nat, b: nat)
    requires TableOk(segs, csymseg) && csymseg >= 0 && |segs[csymseg].syms| != NSYM
    requires Vacant(segs[csymseg], name, k) && b == Probe(Hash(name), k)
    requires forall g :: 0 <= g < csymseg ==> PathOpen(segs[g], name)
    ensures Belongs(segs, csymseg, name, b) && !Known(segs, name)
  {
    assert SegmentOk(segs[csymseg]);
    BelongsUnknown(segs, csymseg, name, b);
  }

  lemma OverflowUnknown(segs: seq<Segment>, csymseg: int, name: string)
    requires TableOk(segs, csymseg) && forall g :: 0 <= g < NSEG ==> PathOpen(segs[g], name)
    ensures !Known(segs, name)
  {
    forall g | 0 <= g < NSEG
      ensures !Defines(segs[g], name)
    {
      OpenPathNotDefined(segs[g], name);
    }
  }

  /** A name that belongs in a vacant bucket is nowhere in the table. */
  lemma BelongsUnknown(segs: seq<Segment>, csymseg: int, name: string, b: nat)
    requires TableOk(segs, csymseg) && Belongs(segs, csymseg, name, b)
    ensures !Known(segs, name)
  {
    forall g | 0 <= g < NSEG
      ensures !Defines(segs[g], name)
    {
      if g <= csymseg {
        assert PathOpen(segs[g], name);
        OpenPathNotDefined(segs[g], name);
      }
    }
  }

  lemma LaterPathOpen(segs: seq<Segment>, csymseg: int, g: nat, h: nat, name: string)
    requires TableOk(segs, csymseg) && g < h < NSEG
    ensures Defines(segs[h], name) ==> PathOpen(segs[g], name)
  {
  }

  /** NSYM probes in one full segment over other names prove that no segment has the name. */
  lemma ExhaustedUnknown(segs: seq<Segment>, csymseg: int, name: string, g: nat)
    requires TableOk(segs, csymseg) && g < NSEG && PassedOver(segs[g], name, NSYM)
    requires forall h :: 0 <= h < g ==> PathOpen(segs[h], name)
    ensures !Known(segs, name) && |segs[g].syms| == NSYM
  {
    NotExhausted(segs[g], name);
    forall h | 0 <= h < NSEG
      ensures !Defines(segs[h], name)
    {
      if h < g {
        OpenPathNotDefined(segs[h], name);
      } else if h == g {
        NotDefined(segs[g], name, NSYM);
      } else {
        LaterPathOpen(segs, csymseg, g, h, name);
      }
    }
  }

  lemma EnteredOk(segs: seq<Segment>, csymseg: int, x: Sym)
    requires TableOk(segs, csymseg) && x.hash >= 0 && Belongs(segs, csymseg, x.name, x.hash)
    ensures TableOk(segs[csymseg := Extended(segs[csymseg], x)], csymseg)
  {
    var k: nat :| Vacant(segs[csymseg], x.name, k) && x.hash == Probe(Hash(x.name), k);
    ExtendedOk(segs[csymseg], x, k);
    var t := segs[csymseg := Extended(segs[csymseg], x)];
    forall g, g2, j | 0 <= g < g2 < NSEG && 0 <= j < |t[g2].syms|
      ensures PathOpen(t[g], t[g2].syms[j].name)
    {
      if g2 == csymseg && j < |segs[g2].syms| {
        assert PathOpen(segs[g], segs[g2].syms[j].name);
      }
    }
  }

  datatype Ptr = Null | At(seg: nat, off: nat)

  /** The pointer just past the last symbol, as `enter` leaves it in `nextsym`. */
  ghost predicate PastLast(segs: seq<Segment>, csymseg: int, p: Ptr)
    requires TableOk(segs, csymseg)
  {
    match p
    case Null => forall g :: 0 <= g < NSEG ==> segs[g].syms == []
    case At(g, off) =>
      && g < NSEG && 1 <= off == |segs[g].syms|
      && g <= csymseg
      && forall h :: g < h < NSEG ==> segs[h].syms == []
  }

  ghost predicate NoSymbols(segs: seq<Segment>) {
    |segs| == NSEG && forall g :: 0 <= g < NSEG ==> segs[g].syms == []
  }

  /** The pointer lies behind all the symbols there are. */
  ghost predicate Beyond(segs: seq<Segment>, csymseg: int, p: Ptr)
    requires TableOk(segs, csymseg)
  {
    p.At? && (p.seg > csymseg || p.off > |segs[p.seg].syms|)
  }

  /** `after` holds every symbol of `before`, in place, and perhaps later ones. */
  ghost predicate GrownFrom(before: seq<Segment>, after: seq<Segment>) {
    && |before| == NSEG == |after|
    && forall g :: 0 <= g < NSEG ==> before[g].syms <= after[g].syms
  }

  /** `now` holds exactly the symbols of `after` that come before p. */
  ghost predicate CutBack(after: seq<Segment>, p: Ptr, now: seq<Segment>) {
    && |after| == NSEG == |now|
    && match p
       case Null => forall g :: 0 <= g < NSEG ==> now[g].syms == []
       case At(seg, off) =>
         && seg < NSEG && off <= |after[seg].syms|
         && (forall g :: 0 <= g < seg ==> now[g].syms == after[g].syms)
         && now[seg].syms == after[seg].syms[..off]
         && (forall g :: seg < g < NSEG ==> now[g].syms == [])
  }

  /** Cutting back to where the table ended before it grew restores it exactly, buckets and all. */
  lemma CutBackRestores(before: seq<Segment>, c: int, after: seq<Segment>, p: Ptr, now: seq<Segment>, c': int)
    requires TableOk(before, c) && PastLast(before, c, p)
    requires GrownFrom(before, after) && CutBack(after, p, now) && TableOk(now, c')
    requires forall g :: 0 <= g < NSEG ==> |after[g].syms| <= NSYM
    ensures now == before
  {
    forall g | 0 <= g < NSEG
      ensures now[g] == before[g]
    {
      assert before[g].syms <= after[g].syms;
      assert g < c ==> |before[g].syms| == NSYM;
    }
  }

  /** What `lookup` comes back with: the symbol, the empty bucket for it, or one of its two errors. */
  datatype Place =
    | Found(g: nat, j: nat)
    | Free(g: nat, b: nat)
    | HashTableBotch(g: nat)
    | TableOverflow

  datatype Outcome = Hit(j: nat) | Open(b: nat) | Exhausted

  lemma PassOne(s: Segment, name: string, k: nat)
    requires BucketsMatch(s) && k < NSYM && PassedOver(s, name, k)
    requires s.buckets[Probe(Hash(name), k)] != EMPTY
    requires s.syms[s.buckets[Probe(Hash(name), k)]].name != name
    ensures PassedOver(s, name, k + 1)
    ensures Probe(Hash(name), k + 1) ==
      var b := Probe(Hash(name), k) + 2 * k + 1;
      if b >= HSIZE then b - HSIZE else b
  {
  }

  /** The probe loop of `lookup` on one segment. */
  method ProbeSegment(s: Segment, name: string) returns (o: Outcome, ghost k: nat)
    requires SegmentOk(s)
    ensures o.Hit? ==> o.j < |s.syms| && s.syms[o.j].name == name
    ensures o.Open? ==> Vacant(s, name, k) && o.b == Probe(Hash(name), k)
    ensures o.Exhausted? ==> PassedOver(s, name, NSYM)
  {
    var hp := Hash(name);
    var i := 1;
    k := 0;
    var more := true;
    while more
      invariant 0 <= k <= NSYM && i == 2 * k + 1
      invariant hp == Probe(Hash(name), k)
      invariant more == (k < NSYM)
      invariant PassedOver(s, name, k)
      decreases NSYM - k
    {
      if s.buckets[hp] == EMPTY {
        return Open(hp), k;
      }
      if s.syms[s.buckets[hp]].name == name {
        return Hit(s.buckets[hp]), k;
      }
      PassOne(s, name, k);
      hp := hp + i;
      i := i + 2;
      if hp >= HSIZE {
        hp := hp - HSIZE;
      }
      more := i < HSIZE;
      k := k + 1;
    }
    return Exhausted, k;
  }

  class Table {
    var segs: seq<Segment>
    var csymseg: int
    var nextsym: Ptr
    var lastsym: Ptr

    ghost predicate Valid()
      reads this
    {
      TableOk(segs, csymseg)
    }

    /** `nextsym` points just past the last symbol. */
    ghost predicate NextIsCurrent()
      reads this
      requires Valid()
    {
      PastLast(segs, csymseg, nextsym)
    }

    constructor ()
      ensures Valid() && NextIsCurrent() && nextsym == Null
      ensures forall g :: 0 <= g < NSEG ==> segs[g].syms == []
    {
      segs := seq(NSEG, _ => Segment([], seq(HSIZE, _ => EMPTY)));
      csymseg := -1;
      nextsym := Null;
      lastsym := Null;
    }

    /**
     * `lookup`: finds the name if and only if it is in the table; otherwise comes to the
     * bucket where it belongs, unless every segment is full, or a full segment has other
     * names in all NSYM probed buckets.
     */
    method Lookup(name: string) returns (r: Place)
      requires Valid()
      modifies this`csymseg
      ensures Valid() && csymseg >= old(csymseg)
      ensures r.Found? <==> Known(segs, name)
      ensures r.Found? ==> r.g < NSEG && r.j < |segs[r.g].syms| && segs[r.g].syms[r.j].name == name
      ensures r.Free? ==> r.g == csymseg && Belongs(segs, csymseg, name, r.b)
      ensures r.HashTableBotch? ==>
        r.g < NSEG && |segs[r.g].syms| == NSYM && PassedOver(segs[r.g], name, NSYM)
      ensures r.TableOverflow? ==> forall g :: 0 <= g < NSEG ==> |segs[g].syms| == NSYM
    {
      hide SegmentOk, PassedOver, PathOpen, Belongs;
      var gp := 0;
      while gp < NSEG
        invariant 0 <= gp <= NSEG && Valid() && csymseg >= old(csymseg)
        invariant forall g :: 0 <= g < gp ==> |segs[g].syms| == NSYM && PathOpen(segs[g], name)
        invariant csymseg >= gp - 1
      {
        if gp > csymseg {
          csymseg := gp;
        }
        var o;
        ghost var k;
        o, k := ProbeSegment(segs[gp], name);
        match o {
          case Hit(j) =>
            assert Defines(segs[gp], name);
            return Found(gp, j);
          case Exhausted =>
            ExhaustedUnknown(segs, csymseg, name, gp);
            return HashTableBotch(gp);
          case Open(b) =>
            if |segs[gp].syms| != NSYM {
              FreeHere(segs, csymseg, name, k, b);
              return Free(gp, b);
            }
            OpenPath(segs[gp], name, k);
        }
        gp := gp + 1;
      }
      OverflowUnknown(segs, csymseg, name);
      return TableOverflow;
    }

    /** `enter`: makes the symbol in the bucket that `lookup` found empty, or points at the one found. */
    method Enter(r: Place, name: string, kind: int, value: int) returns (made: bool)
      requires Valid()
      requires r.Found? || (r.Free? && r.g == csymseg && Belongs(segs, csymseg, name, r.b))
      modifies this`segs, this`nextsym, this`lastsym
      ensures Valid() && GrownFrom(old(segs), segs)
      ensures made == r.Free?
      ensures !made ==> segs == old(segs) && nextsym == old(nextsym) && lastsym == At(r.g, r.j)
      ensures made ==>
        && segs == old(segs)[csymseg := Extended(old(segs)[csymseg], Sym(name, kind, value, r.b))]
        && NextIsCurrent()
        && lastsym == At(csymseg, |old(segs)[csymseg].syms|)
    {
      if r.Free? {
        var x := Sym(name, kind, value, r.b);
        EnteredOk(segs, csymseg, x);
        lastsym := At(csymseg, |segs[csymseg].syms|);
        segs := segs[csymseg := Extended(segs[csymseg], x)];
        nextsym := At(lastsym.seg, lastsym.off + 1);
        made := true;
      } else {
        lastsym := At(r.g, r.j);
        made := false;
      }
    }

    /** The inner loop of `symfree`: empties segment gp, unless it comes to `saved` on the way. */
    method FreeSegment(gp: int, saved: Ptr) returns (hit: bool)
      requires Valid() && gp == csymseg >= 0
      requires saved.At? ==> saved.off >= 1
      modifies this`segs, this`nextsym
      ensures Valid() && segs == old(segs)[gp := segs[gp]]
      ensures hit <==> saved.At? && saved.seg == gp && saved.off < |old(segs)[gp].syms|
      ensures hit ==> segs[gp].syms == old(segs)[gp].syms[..saved.off] && nextsym == saved
      ensures !hit ==> segs[gp].syms == [] && nextsym == old(nextsym)
    {
      ghost var was := segs[gp].syms;
      var off := |segs[gp].syms|;
      while off > 0
        invariant Valid() && nextsym == old(nextsym)
        invariant segs == old(segs)[gp := segs[gp]]
        invariant 0 <= off <= |was| && segs[gp].syms == was[..off]
        invariant saved.At? && saved.seg == gp && saved.off < |was| ==> saved.off < off
        decreases off
      {
        ShortenedTableOk(segs, gp);
        segs := segs[gp := Shortened(segs[gp])];
        off := off - 1;
        if At(gp, off) == saved {
          nextsym := saved;
          return true;
        }
      }
      hit := false;
    }

    /**
     * `symfree`: takes symbols off the end until it comes to `saved`. With the null pointer it
     * empties the table but leaves `nextsym` where it was; so it does, and ld gives up, with a
     * pointer that lies beyond the symbols there are.
     */
    method SymFree(saved: Ptr) returns (botch: bool)
      requires Valid()
      requires saved.At? ==> saved.off >= 1
      modifies this`segs, this`csymseg, this`nextsym
      ensures Valid() && (botch <==> Beyond(old(segs), old(csymseg), saved))
      ensures !botch ==> CutBack(old(segs), saved, segs)
      ensures saved.At? && !botch ==> nextsym == saved && NextIsCurrent() && csymseg == saved.seg
      ensures saved.Null? || botch ==> NoSymbols(segs) && nextsym == old(nextsym) && csymseg == -1
      ensures NextIsCurrent() <==> (saved.At? && !botch) || old(nextsym).Null?
    {
      hide TableOk, SegmentOk;
      TableFacts(segs, csymseg);
      while csymseg >= 0
        invariant Valid() && nextsym == old(nextsym) && csymseg <= old(csymseg)
        invariant |segs| == NSEG && -1 <= csymseg < NSEG && forall g :: csymseg < g < NSEG ==> segs[g].syms == []
        invariant saved.At? && !Beyond(old(segs), old(csymseg), saved) ==> saved.seg <= csymseg
        invariant forall g :: 0 <= g <= csymseg ==> segs[g] == old(segs)[g]
        decreases csymseg
      {
        if At(csymseg, |segs[csymseg].syms|) == saved {
          nextsym := saved;
          return false;
        }
        var hit := FreeSegment(csymseg, saved);
        TableFacts(segs, csymseg);
        if hit {
          return false;
        }
        csymseg := csymseg - 1;
      }
      botch := saved.At?;
    }
  }

  lemma TableFacts(segs: seq<Segment>, csymseg: int)
    requires TableOk(segs, csymseg)
    ensures |segs| == NSEG && -1 <= csymseg < NSEG && forall g :: csymseg < g < NSEG ==> segs[g].syms == []
    ensures csymseg >= 0 && segs[csymseg].syms == [] ==> TableOk(segs, csymseg - 1)
  {
    hide SegmentOk, PathOpen;
  }

  lemma ShortenedTableOk(segs: seq<Segment>, csymseg: int)
    requires TableOk(segs, csymseg) && csymseg >= 0 && segs[csymseg].syms != []
    ensures TableOk(segs[csymseg := Shortened(segs[csymseg])], csymseg)
  {
    ShortenedOk(segs[csymseg]);
    var t := segs[csymseg := Shortened(segs[csymseg])];
    forall g, g2, j | 0 <= g < g2 < NSEG && 0 <= j < |t[g2].syms|
      ensures PathOpen(t[g], t[g2].syms[j].name)
    {
      assert g2 <= csymseg;
      assert t[g2].syms[j] == segs[g2].syms[j];
      assert PathOpen(segs[g], segs[g2].syms[j].name);
    }
  }

  lemma KnownMeansNonEmpty(segs: seq<Segment>, csymseg: int, name: string, p: Ptr)
    requires TableOk(segs, csymseg) && Known(segs, name) && PastLast(segs, csymseg, p)
    ensures p.At?
  {
  }

  /** One name of a member: looked up, and entered if it is new. */
  method EnterName(t: Table, name: string) returns (ok: bool)
    requires t.Valid() && (t.NextIsCurrent() || NoSymbols(t.segs))
    modifies t
    ensures t.Valid() && GrownFrom(old(t.segs), t.segs) && t.csymseg >= old(t.csymseg)
    ensures ok ==> t.NextIsCurrent() && t.nextsym.At?
  {
    var r := t.Lookup(name);
    if r.HashTableBotch? || r.TableOverflow? {
      return false;
    }
    if r.Found? {
      KnownMeansNonEmpty(t.segs, t.csymseg, name, t.nextsym);
    }
    var made := t.Enter(r, name, 0, 0);
    ok := true;
  }

  /**
   * A library member that turns out to be useless: all its names are entered and then undone.
   * The table is then exactly what it was if and only if `nextsym` pointed past the last
   * symbol. After the very first symbols of a link have been undone it does not: from there
   * either ld gives up, or the first symbols up to that pointer stay in the table.
   */
  method TryMember(t: Table, names: seq<string>)
    returns (ok: bool, botch: bool, ghost grown: seq<Segment>, ghost c: int)
    requires t.Valid() && (t.NextIsCurrent() || (NoSymbols(t.segs) && t.nextsym.At? && t.nextsym.off >= 1))
    modifies t
    ensures t.Valid()
    ensures ok ==> TableOk(grown, c) && GrownFrom(old(t.segs), grown) && (names == [] ==> grown == old(t.segs))
    ensures ok ==> (botch <==> Beyond(grown, c, old(t.nextsym)))
    ensures ok ==> (!botch && t.segs == old(t.segs) <==> old(t.NextIsCurrent()))
    ensures ok && !botch ==> CutBack(grown, old(t.nextsym), t.segs)
    ensures ok && !botch ==> (t.NextIsCurrent() <==> old(t.nextsym).At? || names == [])
  {
    var savnext := t.nextsym;
    ghost var before, c0 := t.segs, t.csymseg;
    grown, c, botch := before, c0, false;
    var i := 0;
    while i < |names|
      invariant 0 <= i <= |names| && t.Valid() && GrownFrom(before, t.segs) && t.csymseg >= c0
      invariant if i == 0 then t.nextsym == savnext && t.segs == before else t.NextIsCurrent() && t.nextsym.At?
    {
      ghost var middle := t.segs;
      ok := EnterName(t, names[i]);
      if !ok {
        return;
      }
      assert forall g :: 0 <= g < NSEG ==> before[g].syms <= middle[g].syms <= t.segs[g].syms;
      i := i + 1;
    }
    grown, c := t.segs, t.csymseg;
    botch := t.SymFree(savnext);
    Undone(before, c0, grown, c, savnext, t.segs, t.csymseg);
    ok := true;
  }

  /** What is left after growing and cutting back. */
  lemma Undone(before: seq<Segment>, c0: int, grown: seq<Segment>, c: int, p: Ptr, now: seq<Segment>, c': int)
    requires TableOk(before, c0) && TableOk(grown, c) && TableOk(now, c') && GrownFrom(before, grown) && c0 <= c
    requires PastLast(before, c0, p) || (NoSymbols(before) && p.At? && p.off >= 1)
    requires if Beyond(grown, c, p) then NoSymbols(now) else CutBack(grown, p, now)
    ensures !Beyond(grown, c, p) && now == before <==> PastLast(before, c0, p)
  {
    if PastLast(before, c0, p) {
      assert p.At? ==> before[p.seg].syms <= grown[p.seg].syms;
      CutBackRestores(before, c0, grown, p, now, c');
    } else if !Beyond(grown, c, p) {
      assert |now[p.seg].syms| == p.off;
    }
  }
}
