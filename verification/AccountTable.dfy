/**
 * The table of command names of etc/sa.c: chunks of 1103 slots, probed quadratically, to
 * which `enter` adds names and in which it finds them again.
 */
module AccountTable {
  import opened Numbers
  import opened QuadraticProbe

  const NHASH: nat := 1103
  const HASHCLOGGED: nat := 551

  datatype Option<T> = None | Some(value: T)

  /** What the accounting file keeps of a command's name: some of its first characters. */
  type Name = s: string | s != "" witness "a"

  /** One chunk of the table: in each slot the number of a cell, and how many are in use. */
  datatype Chunk = Chunk(slots: seq<Option<nat>>, nused: nat)

  // ----- the hash

  /** An int of 32 bits. */
  function Wrapped(x: int): (r: int)
    ensures -0x8000_0000 <= r < 0x8000_0000 && (r - x) % 0x1_0000_0000 == 0
  {
    (x + 0x8000_0000) % 0x1_0000_0000 - 0x8000_0000
  }

  function Mixed(name: string): int {
    if name == "" then 0
    else Wrapped(4 * Mixed(name[..|name| - 1]) + name[|name| - 1] as int)
  }

  function Hash(name: Name): (h: nat)
    ensures h < NHASH
  {
    Wrapped(Mixed(name) + 32 * name[|name| - 1] as int) % NHASH
  }

  // ----- the probes

  /** The k-th slot to be tried. */
  function Probe(h: nat, k: nat): (p: nat)
    ensures p < NHASH
  {
    (h + k * k) % NHASH
  }

  /** From each slot to the next it is an odd number of places, going round. */
  lemma NextProbe(h: nat, k: nat)
    requires h < NHASH && k <= 551
    ensures Probe(h, 0) == h
    ensures var next := Probe(h, k) + (2 * k + 1);
      Probe(h, k + 1) == if next >= NHASH then next - NHASH else next
  {
    var n := h + k * k;
    assert h + (k + 1) * (k + 1) == n + 2 * k + 1;
    var q, r := n / NHASH, n % NHASH;
    assert n == NHASH * q + r;
    if r + 2 * k + 1 >= NHASH {
      DivModUnique(n + 2 * k + 1, NHASH, q + 1, r + 2 * k + 1 - NHASH);
    } else {
      DivModUnique(n + 2 * k + 1, NHASH, q, r + 2 * k + 1);
    }
  }

  ghost function Probes(h: nat, n: nat): set<nat> {
    if n == 0 then {} else Probes(h, n - 1) + {Probe(h, n - 1)}
  }

  lemma {:induction false} ProbesAre(h: nat, n: nat, x: nat)
    ensures x in Probes(h, n) <==> exists k: nat :: k < n && x == Probe(h, k)
  {
    if n > 0 {
      ProbesAre(h, n - 1, x);
    }
  }

  /** The first 551 probes are all different. */
  lemma {:induction false} ProbesDiffer(h: nat, n: nat)
    requires n <= 551
    ensures |Probes(h, n)| == n
  {
    if n > 0 {
      ProbesDiffer(h, n - 1);
      var x := Probe(h, n - 1);
      if x in Probes(h, n - 1) {
        ProbesAre(h, n - 1, x);
        var k: nat :| k < n - 1 && x == Probe(h, k);
        PIsPrime();
        DistinctModP(NHASH, h, k, n - 1);
      }
    }
  }

  // ----- one chunk

  function Used(slots: seq<Option<nat>>): set<nat> {
    set i | 0 <= i < |slots| && slots[i].Some?
  }

  /** The slots tried before the k-th are all in use. */
  ghost predicate Passed(slots: seq<Option<nat>>, h: nat, k: nat)
    requires |slots| == NHASH
  {
    forall j: nat :: j < k ==> slots[Probe(h, j)].Some?
  }

  /** The probes from h come to cell number i before they give up. */
  ghost predicate Reaches(slots: seq<Option<nat>>, h: nat, i: nat)
    requires |slots| == NHASH
  {
    exists k: nat :: k <= 550 && slots[Probe(h, k)] == Some(i) && Passed(slots, h, k)
  }

  predicate ChunkOk(c: Chunk, ncells: nat) {
    && |c.slots| == NHASH
    && c.nused == |Used(c.slots)| <= HASHCLOGGED
    && forall i :: 0 <= i < NHASH && c.slots[i].Some? ==> c.slots[i].value < ncells
  }

  /** Where the first 551 probes fail, so many slots are in use that the chunk is clogged. */
  lemma AllTriedIsClogged(slots: seq<Option<nat>>, h: nat)
    requires |slots| == NHASH && Passed(slots, h, 551)
    ensures |Used(slots)| >= HASHCLOGGED
  {
    ProbesDiffer(h, 551);
    forall x | x in Probes(h, 551) ensures x in Used(slots) {
      ProbesAre(h, 551, x);
    }
    SubsetSize(Probes(h, 551), Used(slots));
  }

  lemma SubsetSize(a: set<nat>, b: set<nat>)
    requires a <= b
    ensures |a| <= |b|
  {
    assert b == a + (b - a);
  }

  /** Exactly the first 551 probes are in use. */
  lemma Clogged(h: nat) returns (slots: seq<Option<nat>>)
    ensures |slots| == NHASH && Used(slots) == Probes(h, 551)
    ensures forall x: nat :: x < NHASH ==> slots[x] == if x in Probes(h, 551) then Some(0) else None
  {
    hide Probe, Probes;
    slots := seq(NHASH, i => if i in Probes(h, 551) then Some(0) else None);
    forall x | x in Probes(h, 551)
      ensures x in Used(slots)
    {
      ProbesAre(h, 551, x);
    }
  }

  /** The 552nd probe is not one of them. */
  lemma LateProbe(h: nat)
    ensures Probe(h, 551) !in Probes(h, 551)
  {
    hide Probes;
    if Probe(h, 551) in Probes(h, 551) {
      ProbesAre(h, 551, Probe(h, 551));
      var k: nat :| k < 551 && Probe(h, 551) == Probe(h, k);
      PIsPrime();
      DistinctModP(NHASH, h, k, 551);
    }
  }

  /** The guard cannot be any weaker: in a chunk just clogged a free slot may be found too late. */
  lemma CloggedIsTight(name: Name)
    ensures exists c: Chunk, p: nat ::
      && ChunkOk(c, 1) && c.nused == HASHCLOGGED && p < NHASH
      && p == Probe(Hash(name), 551) && c.slots[p].None? && Passed(c.slots, Hash(name), 551)
      && !Reaches(c.slots[p := Some(1)], Hash(name), 1)
  {
    hide Hash, Probe, Probes, Used;
    var h := Hash(name);
    var slots := Clogged(h);
    var p := Probe(h, 551);
    forall k: nat | k < 551
      ensures slots[Probe(h, k)] == Some(0)
    {
      ProbesAre(h, 551, Probe(h, k));
    }
    if p in Probes(h, 551) {
      LateProbe(h);
    }
    ProbesDiffer(h, 551);
    var c := Chunk(slots, HASHCLOGGED);
    assert ChunkOk(c, 1);
    assert Passed(c.slots, h, 551);
    assert !Reaches(c.slots[p := Some(1)], h, 1);
  }

  /** Filling a free slot uses one more, and every cell is reached as before. */
  lemma Filled(c: Chunk, p: nat, n: nat)
    requires ChunkOk(c, n) && c.nused < HASHCLOGGED && p < NHASH && c.slots[p].None?
    ensures ChunkOk(Chunk(c.slots[p := Some(n)], c.nused + 1), n + 1)
    ensures forall h: nat, i: nat :: Reaches(c.slots, h, i) ==> Reaches(c.slots[p := Some(n)], h, i)
  {
    var after := c.slots[p := Some(n)];
    assert Used(after) == Used(c.slots) + {p};
    forall h: nat, i: nat | Reaches(c.slots, h, i) ensures Reaches(after, h, i) {
      var k: nat :| k <= 550 && c.slots[Probe(h, k)] == Some(i) && Passed(c.slots, h, k);
      assert after[Probe(h, k)] == Some(i);
      assert Passed(after, h, k);
    }
  }

  /**
   * Try one chunk: the cell of that name, or the free slot at which the probes ended, or
   * neither.
   */
  method ProbeChunk(slots: seq<Option<nat>>, cells: seq<Name>, name: Name)
    returns (found: Option<nat>, free: Option<nat>)
    requires |slots| == NHASH
    requires forall i :: 0 <= i < NHASH && slots[i].Some? ==> slots[i].value < |cells|
    ensures found.Some? ==> free.None? && found.value < |cells| && cells[found.value] == name
    ensures found.None? ==>
      forall i: nat :: i < |cells| && Reaches(slots, Hash(name), i) ==> cells[i] != name
    ensures free.Some? ==> free.value < NHASH && slots[free.value].None?
    ensures free.Some? && |Used(slots)| < HASHCLOGGED ==>
      exists k: nat :: k <= 550 && free.value == Probe(Hash(name), k) && Passed(slots, Hash(name), k)
    ensures found.None? && free.None? ==> |Used(slots)| >= HASHCLOGGED
  {
    var h := Hash(name);
    var hp, nprobes := h, 1;
    ghost var k := 0;
    NextProbe(h, 0);
    while slots[hp].Some? && nprobes < NHASH
      invariant k <= 551 && nprobes == 2 * k + 1 && hp == Probe(h, k)
      invariant Passed(slots, h, k)
      invariant forall j: nat :: j < k ==> cells[slots[Probe(h, j)].value] != name
      decreases NHASH - nprobes
    {
      if cells[slots[hp].value] == name {
        return slots[hp], None;
      }
      NextProbe(h, k);
      hp := hp + nprobes;
      hp := hp - if hp >= NHASH then NHASH else 0;
      nprobes := nprobes + 2;
      k := k + 1;
    }
    NotReached(slots, cells, name, k);
    if k == 551 {
      AllTriedIsClogged(slots, h);
    }
    return None, if slots[hp].None? then Some(hp) else None;
  }

  lemma NotReached(slots: seq<Option<nat>>, cells: seq<Name>, name: Name, k: nat)
    requires |slots| == NHASH && k <= 551 && Passed(slots, Hash(name), k)
    requires forall i :: 0 <= i < NHASH && slots[i].Some? ==> slots[i].value < |cells|
    requires forall j: nat :: j < k ==> cells[slots[Probe(Hash(name), j)].value] != name
    requires slots[Probe(Hash(name), k)].None? || k == 551
    ensures forall i: nat :: i < |cells| && Reaches(slots, Hash(name), i) ==> cells[i] != name
  {
    forall i: nat | i < |cells| && Reaches(slots, Hash(name), i) ensures cells[i] != name {
      var m: nat :| m <= 550 && slots[Probe(Hash(name), m)] == Some(i) && Passed(slots, Hash(name), m);
      assert m < k;
    }
  }

  // ----- the whole table

  /** Some chunk's probes come to cell number i by its own name. */
  ghost predicate Reachable(chunks: seq<Chunk>, cells: seq<Name>, i: nat)
    requires i < |cells|
  {
    exists c :: 0 <= c < |chunks| && |chunks[c].slots| == NHASH && Reaches(chunks[c].slots, Hash(cells[i]), i)
  }

  function TotalUsed(chunks: seq<Chunk>): nat {
    if chunks == [] then 0 else chunks[0].nused + TotalUsed(chunks[1..])
  }

  lemma {:induction false} TotalAfter(chunks: seq<Chunk>, c: nat, d: Chunk)
    requires c < |chunks|
    ensures TotalUsed(chunks[c := d]) == TotalUsed(chunks) - chunks[c].nused + d.nused
  {
    if c == 0 {
      assert chunks[c := d][1..] == chunks[1..];
    } else {
      assert chunks[c := d][1..] == chunks[1..][c - 1 := d];
      TotalAfter(chunks[1..], c - 1, d);
    }
  }

  ghost predicate TableOk(chunks: seq<Chunk>, cells: seq<Name>) {
    && chunks != []
    && (forall c :: 0 <= c < |chunks| ==> ChunkOk(chunks[c], |cells|))
    && (forall i :: 0 <= i < |cells| ==> Reachable(chunks, cells, i))
    && (forall i, j :: 0 <= i < j < |cells| ==> cells[i] != cells[j])
    && TotalUsed(chunks) == |cells|
  }

  /** The second chunk of the list is new and empty. */
  function WithNewChunk(chunks: seq<Chunk>): seq<Chunk>
    requires chunks != []
  {
    [chunks[0], Chunk(seq(NHASH, _ => None), 0)] + chunks[1..]
  }

  lemma NewChunkOk(chunks: seq<Chunk>, cells: seq<Name>)
    requires TableOk(chunks, cells)
    ensures TableOk(WithNewChunk(chunks), cells)
  {
    var after := WithNewChunk(chunks);
    assert Used(after[1].slots) == {};
    forall c | 0 <= c < |after| ensures ChunkOk(after[c], |cells|) {
      if c > 1 {
        assert after[c] == chunks[c - 1];
      }
    }
    forall i | 0 <= i < |cells| ensures Reachable(after, cells, i) {
      assert Reachable(chunks, cells, i);
      var c :| 0 <= c < |chunks| && |chunks[c].slots| == NHASH && Reaches(chunks[c].slots, Hash(cells[i]), i);
      assert after[if c == 0 then 0 else c + 1] == chunks[c];
    }
    assert after[1..][1..] == chunks[1..];
  }

  /** That chunk with its free slot filled. */
  function FilledAt(c: Chunk, p: nat, n: nat): Chunk
    requires p < |c.slots|
  {
    Chunk(c.slots[p := Some(n)], c.nused + 1)
  }

  /** A free slot of an unclogged chunk, at which the probes of a name end in time. */
  ghost predicate Fits(chunks: seq<Chunk>, c: nat, p: nat, name: Name) {
    && c < |chunks| && |chunks[c].slots| == NHASH && chunks[c].nused < HASHCLOGGED
    && p < NHASH && chunks[c].slots[p].None?
    && exists k: nat :: k <= 550 && p == Probe(Hash(name), k) && Passed(chunks[c].slots, Hash(name), k)
  }

  lemma StillReached(chunks: seq<Chunk>, cells: seq<Name>, c: nat, p: nat, name: Name, i: nat)
    requires c < |chunks| && ChunkOk(chunks[c], |cells|) && Fits(chunks, c, p, name)
    requires i < |cells| && Reachable(chunks, cells, i)
    ensures Reachable(chunks[c := FilledAt(chunks[c], p, |cells|)], cells + [name], i)
  {
    hide Passed, Reaches, Probe, Hash;
    Filled(chunks[c], p, |cells|);
    var after := chunks[c := FilledAt(chunks[c], p, |cells|)];
    var b :| 0 <= b < |chunks| && |chunks[b].slots| == NHASH && Reaches(chunks[b].slots, Hash(cells[i]), i);
    assert (cells + [name])[i] == cells[i];
    assert |after[b].slots| == NHASH && Reaches(after[b].slots, Hash((cells + [name])[i]), i);
  }

  lemma NewReached(chunks: seq<Chunk>, cells: seq<Name>, c: nat, p: nat, name: Name)
    requires Fits(chunks, c, p, name)
    ensures Reachable(chunks[c := FilledAt(chunks[c], p, |cells|)], cells + [name], |cells|)
  {
    var d := FilledAt(chunks[c], p, |cells|);
    var k: nat :| k <= 550 && p == Probe(Hash(name), k) && Passed(chunks[c].slots, Hash(name), k);
    assert Passed(d.slots, Hash(name), k);
    assert (cells + [name])[|cells|] == name;
    assert Reaches(chunks[c := d][c].slots, Hash(name), |cells|);
  }

  /** A new name filled in where its own probes end. */
  lemma NameFilledIn(chunks: seq<Chunk>, cells: seq<Name>, c: nat, p: nat, name: Name)
    requires TableOk(chunks, cells) && name !in cells && Fits(chunks, c, p, name)
    ensures TableOk(chunks[c := FilledAt(chunks[c], p, |cells|)], cells + [name])
  {
    hide Reachable, ChunkOk;
    var after := chunks[c := FilledAt(chunks[c], p, |cells|)];
    Filled(chunks[c], p, |cells|);
    TotalAfter(chunks, c, FilledAt(chunks[c], p, |cells|));
    forall b | 0 <= b < |after| ensures ChunkOk(after[b], |cells| + 1) {
      if b != c {
        MoreCells(chunks[b], |cells|);
      }
    }
    forall i | 0 <= i <= |cells| ensures Reachable(after, cells + [name], i) {
      if i < |cells| {
        StillReached(chunks, cells, c, p, name, i);
      } else {
        NewReached(chunks, cells, c, p, name);
      }
    }
  }

  lemma MoreCells(c: Chunk, n: nat)
    requires ChunkOk(c, n)
    ensures ChunkOk(c, n + 1)
  {
  }

  /** The accounting table: its cells in the order they were allocated, and the chunks. */
  class Table {
    var chunks: seq<Chunk>
    var cells: seq<Name>

    ghost predicate Valid() reads this {
      TableOk(chunks, cells)
    }

    constructor ()
      ensures Valid() && cells == []
    {
      chunks, cells := [Chunk(seq(NHASH, _ => None), 0)], [];
      new;
      assert Used(chunks[0].slots) == {};
      assert chunks[1..] == [];
    }

    /**
     * The cell of a name. A name not yet known gets the next cell if it is to be installed,
     * and nothing is returned if it is not.
     */
    method Enter(name: Name, htabinstall: bool) returns (cell: Option<nat>)
      requires Valid()
      modifies this
      ensures Valid()
      ensures cells == if name in old(cells) || !htabinstall then old(cells) else old(cells) + [name]
      ensures cell.Some? <==> name in cells
      ensures cell.Some? ==> cell.value < |cells| && cells[cell.value] == name
      ensures name in old(cells) ==> chunks == old(chunks)
    {
      var emptyslot: Option<nat>, emptyhd := None, 0;
      var c := 0;
      while c < |chunks|
        invariant c <= |chunks| && chunks == old(chunks) && cells == old(cells)
        invariant forall b, i: nat :: 0 <= b < c && i < |cells| && Reaches(chunks[b].slots, Hash(name), i) ==>
          cells[i] != name
        invariant emptyslot.Some? ==> Fits(chunks, emptyhd, emptyslot.value, name)
      {
        var found, free := ProbeChunk(chunks[c].slots, cells, name);
        if found.Some? {
          return found;
        }
        if free.Some? && emptyslot.None? && chunks[c].nused < HASHCLOGGED {
          emptyslot, emptyhd := free, c;
        }
        c := c + 1;
      }
      Unknown(chunks, cells, name);
      if emptyslot.None? {
        NewChunkOk(chunks, cells);
        chunks := WithNewChunk(chunks);
        emptyhd, emptyslot := 1, Some(Hash(name));
        NextProbe(Hash(name), 0);
        assert Passed(chunks[1].slots, Hash(name), 0);
        assert Fits(chunks, 1, Hash(name), name);
      }
      if htabinstall {
        NameFilledIn(chunks, cells, emptyhd, emptyslot.value, name);
        chunks := chunks[emptyhd := FilledAt(chunks[emptyhd], emptyslot.value, |cells|)];
        cells := cells + [name];
        return Some(|cells| - 1);
      }
      return None;
    }
  }

  /** A name that no chunk's probes come to is not in the table at all. */
  lemma Unknown(chunks: seq<Chunk>, cells: seq<Name>, name: Name)
    requires TableOk(chunks, cells)
    requires forall b, i: nat :: 0 <= b < |chunks| && i < |cells| && Reaches(chunks[b].slots, Hash(name), i) ==>
      cells[i] != name
    ensures name !in cells
  {
    forall i | 0 <= i < |cells| ensures cells[i] != name {
      assert Reachable(chunks, cells, i);
      var b :| 0 <= b < |chunks| && |chunks[b].slots| == NHASH && Reaches(chunks[b].slots, Hash(cells[i]), i);
    }
  }

  // ----- the sorted report

  /** A cell as the report sees it; `key` stands for the order asked for by the flags. */
  datatype Line = Process(key: real, name: string) | User(uid: int)

  /** Processes in the order of their keys, then users in any order. */
  predicate NotAfter(a: Line, b: Line) {
    b.User? || (a.Process? && a.key <= b.key)
  }

  predicate Ordered(s: seq<Line>) {
    forall i, j :: 0 <= i < j < |s| ==> NotAfter(s[i], s[j])
  }

  function AllOf(queues: seq<seq<Line>>): multiset<Line> {
    if queues == [] then multiset{} else multiset(queues[0]) + AllOf(queues[1..])
  }

  lemma {:induction false} AllAfter(queues: seq<seq<Line>>, c: nat, q: seq<Line>, x: Line)
    requires c < |queues| && queues[c] == [x] + q
    ensures AllOf(queues) == AllOf(queues[c := q]) + multiset{x}
    ensures q == [] ==> AllOf(queues[..c] + queues[c + 1..]) == AllOf(queues[c := q])
  {
    if c == 0 {
      assert queues[c := q][1..] == queues[1..];
      assert queues[..0] + queues[1..] == queues[1..];
    } else {
      var tail := queues[1..];
      assert queues[c := q][1..] == tail[c - 1 := q];
      assert (queues[..c] + queues[c + 1..])[1..] == tail[..c - 1] + tail[c..];
      AllAfter(tail, c - 1, q, x);
    }
  }

  lemma {:induction false} InSomeQueue(queues: seq<seq<Line>>, x: Line)
    ensures x in AllOf(queues) <==> exists c :: 0 <= c < |queues| && x in queues[c]
  {
    if queues != [] {
      InSomeQueue(queues[1..], x);
      if x in AllOf(queues[1..]) {
        var c :| 0 <= c < |queues[1..]| && x in queues[1..][c];
        assert x in queues[c + 1];
      }
      if c :| 0 < c < |queues| && x in queues[c] {
        assert x in queues[1..][c - 1];
      }
    }
  }

  predicate Queues(queues: seq<seq<Line>>) {
    forall c :: 0 <= c < |queues| ==> queues[c] != [] && Ordered(queues[c])
  }

  /** The chunk whose first line comes before every other line. */
  method Smallest(queues: seq<seq<Line>>) returns (smallest: nat)
    requires queues != [] && Queues(queues)
    ensures smallest < |queues|
    ensures forall x :: x in AllOf(queues) ==> NotAfter(queues[smallest][0], x)
  {
    smallest := 0;
    for i := 1 to |queues|
      invariant smallest < |queues|
      invariant forall c :: 0 <= c < i ==> NotAfter(queues[smallest][0], queues[c][0])
    {
      if !NotAfter(queues[smallest][0], queues[i][0]) {
        smallest := i;
      }
    }
    forall x | x in AllOf(queues) ensures NotAfter(queues[smallest][0], x) {
      InSomeQueue(queues, x);
      var c :| 0 <= c < |queues| && x in queues[c];
      var j :| 0 <= j < |queues[c]| && queues[c][j] == x;
      assert j > 0 ==> NotAfter(queues[c][0], queues[c][j]);
      assert NotAfter(queues[smallest][0], queues[c][0]);
    }
  }

  /** What has been printed and what is still in the queues. */
  ghost predicate Merging(chunks: seq<seq<Line>>, queues: seq<seq<Line>>, report: seq<Line>) {
    && Queues(queues) && Ordered(report)
    && multiset(report) + AllOf(queues) == AllOf(chunks)
    && forall i, x :: 0 <= i < |report| && x in AllOf(queues) ==> NotAfter(report[i], x)
  }

  function WithoutHead(queues: seq<seq<Line>>, c: nat): seq<seq<Line>>
    requires c < |queues| && queues[c] != []
  {
    if |queues[c]| == 1 then queues[..c] + queues[c + 1..] else queues[c := queues[c][1..]]
  }

  lemma HeadRemoved(queues: seq<seq<Line>>, c: nat)
    requires c < |queues| && Queues(queues)
    ensures Queues(WithoutHead(queues, c))
    ensures AllOf(queues) == AllOf(WithoutHead(queues, c)) + multiset{queues[c][0]}
    ensures forall x :: x in AllOf(WithoutHead(queues, c)) ==> x in AllOf(queues)
    ensures queues[c][0] in AllOf(queues)
  {
    hide AllOf, WithoutHead, Queues;
    QueuesKept(queues, c);
    HeadTaken(queues, c);
  }

  lemma HeadTaken(queues: seq<seq<Line>>, c: nat)
    requires c < |queues| && queues[c] != []
    ensures AllOf(queues) == AllOf(WithoutHead(queues, c)) + multiset{queues[c][0]}
  {
    hide AllOf;
    assert queues[c] == [queues[c][0]] + queues[c][1..];
    AllAfter(queues, c, queues[c][1..], queues[c][0]);
  }

  lemma QueuesKept(queues: seq<seq<Line>>, c: nat)
    requires c < |queues| && Queues(queues)
    ensures queues[c] != [] && Queues(WithoutHead(queues, c))
  {
    hide NotAfter;
    var after := WithoutHead(queues, c);
    if |queues[c]| == 1 {
      forall b | 0 <= b < |after|
        ensures after[b] in queues
      {
        assert after[b] == if b < c then queues[b] else queues[b + 1];
      }
    }
  }

  lemma OrderedMore(report: seq<Line>, x: Line)
    requires Ordered(report) && forall i :: 0 <= i < |report| ==> NotAfter(report[i], x)
    ensures Ordered(report + [x])
  {
    hide NotAfter;
  }

  lemma OneMoved(report: seq<Line>, x: Line, left: multiset<Line>, after: multiset<Line>)
    requires left == after + multiset{x}
    ensures multiset(report + [x]) + after == multiset(report) + left
  {
  }

  lemma AllStillAfter(report: seq<Line>, x: Line, left: multiset<Line>, after: multiset<Line>)
    requires forall i, y :: 0 <= i < |report| && y in left ==> NotAfter(report[i], y)
    requires (forall y :: y in left ==> NotAfter(x, y)) && forall y :: y in after ==> y in left
    ensures forall i, y :: 0 <= i < |report + [x]| && y in after ==> NotAfter((report + [x])[i], y)
  {
    hide NotAfter;
  }

  lemma HeadPrinted(chunks: seq<seq<Line>>, queues: seq<seq<Line>>, report: seq<Line>, c: nat)
    requires Merging(chunks, queues, report) && c < |queues| && queues[c] != []
    requires forall x :: x in AllOf(queues) ==> NotAfter(queues[c][0], x)
    ensures Merging(chunks, WithoutHead(queues, c), report + [queues[c][0]])
  {
    hide AllOf, WithoutHead, Queues, NotAfter, Ordered;
    HeadRemoved(queues, c);
    var x := queues[c][0];
    var after := WithoutHead(queues, c);
    OrderedMore(report, x);
    OneMoved(report, x, AllOf(queues), AllOf(after));
    AllStillAfter(report, x, AllOf(queues), AllOf(after));
  }

  /** Merge the sorted chunks: every line once, and all in order. */
  method Merge(chunks: seq<seq<Line>>) returns (report: seq<Line>)
    requires Queues(chunks)
    ensures multiset(report) == AllOf(chunks) && Ordered(report)
  {
    var queues := chunks;
    report := [];
    while queues != []
      invariant Merging(chunks, queues, report)
      decreases |AllOf(queues)|
    {
      var smallest := Smallest(queues);
      HeadRemoved(queues, smallest);
      HeadPrinted(chunks, queues, report, smallest);
      report := report + [queues[smallest][0]];
      queues := WithoutHead(queues, smallest);
    }
  }
}
