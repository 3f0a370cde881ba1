/**
 * RT-11 floppies in etc/arff.c: the sector interleave of `trans`, and the directory segments,
 * in which `mkent` splits entries, `rtk` frees them and `scrunch` joins them again.
 */
module RtDirectory {
  import opened Numbers

  // ----- where a byte is on the floppy

  const SECTORS: nat := 26
  const SECTOR: nat := 128

  /** Sectors 0 to 12 are every second one from 0 on, the others every second one from 1 on. */
  function Interleave(sector: nat): nat {
    if sector >= 13 then sector * 2 + 1 else sector * 2
  }

  /** The sector of a track where its logical sector is, each track starting six sectors further round. */
  function Skewed(track: nat, sector: nat): (s: nat)
    requires track >= 1
    ensures s < SECTORS
  {
    (Interleave(sector) + SECTORS + (track - 1) * 6) % SECTORS
  }

  /**
   * Logical sectors that follow one another lie two sectors apart, but three where the even ones
   * are used up, and every track begins six sectors further round than the one before.
   */
  lemma {:induction false} SkewedSteps(track: nat, sector: nat)
    requires track >= 1 && sector < 26
    ensures Skewed(1, 0) == 0 && Skewed(track + 1, sector) == (Skewed(track, sector) + 6) % 26
    ensures sector < 25 ==>
      Skewed(track, sector + 1) == (Skewed(track, sector) + if sector == 12 then 3 else 2) % 26
  {
    var turn := (track - 1) * 6;
    var x := Interleave(sector) + SECTORS + turn;
    SumModulo(x, 6);
    assert (track + 1 - 1) * 6 == turn + 6;
    if sector < 25 {
      SumModulo(x, if sector == 12 then 3 else 2);
    }
  }

  lemma SumModulo(x: nat, k: nat)
    ensures (x % 26 + k) % 26 == (x + k) % 26
  {
    ModShift(x % 26 + k, 26, x / 26);
    assert x == x % 26 + 26 * (x / 26);
  }

  /** `trans`: the first track is left out. */
  function Trans(address: nat): nat {
    var logical := address + SECTORS * SECTOR;
    var bytes, block := logical % SECTOR, logical / SECTOR;
    var sector, track := block % SECTORS, block / SECTORS;
    (track * SECTORS + Skewed(track, sector)) * SECTOR + bytes
  }

  /** Different sectors of a track are in different places. */
  lemma {:induction false} SkewedInjective(track: nat, a: nat, b: nat)
    requires track >= 1 && a < SECTORS && b < SECTORS && Skewed(track, a) == Skewed(track, b)
    ensures a == b
  {
    var turn := (track - 1) * 6;
    var x, y := Interleave(a) + SECTORS + turn, Interleave(b) + SECTORS + turn;
    var k := x / SECTORS - y / SECTORS;
    assert x - y == SECTORS * k;
    assert -52 < x - y < 52;
    assert k == -1 || k == 0 || k == 1;
  }

  /** Nothing but the sector within the track changes, so `trans` is one to one. */
  lemma {:induction false} TransInjective(a: nat, b: nat)
    ensures Trans(a) == Trans(b) <==> a == b
  {
    var x, y := a + SECTORS * SECTOR, b + SECTORS * SECTOR;
    var s, t := x / SECTOR / SECTORS, y / SECTOR / SECTORS;
    if Trans(a) == Trans(b) {
      TransParts(a);
      TransParts(b);
      SkewedInjective(s, x / SECTOR % SECTORS, y / SECTOR % SECTORS);
    }
  }

  /** An address keeps its byte within the sector and its track, one track further in. */
  lemma {:induction false} TransParts(a: nat)
    ensures var x := a + SECTORS * SECTOR;
      && x / SECTOR / SECTORS >= 1
      && Trans(a) % SECTOR == x % SECTOR == a % SECTOR
      && Trans(a) / SECTOR / SECTORS == x / SECTOR / SECTORS == a / SECTOR / SECTORS + 1
      && Trans(a) / SECTOR % SECTORS == Skewed(x / SECTOR / SECTORS, x / SECTOR % SECTORS)
  {
    var x := a + SECTORS * SECTOR;
    var bytes, block := x % SECTOR, x / SECTOR;
    var track, s := block / SECTORS, Skewed(block / SECTORS, block % SECTORS);
    DivModUnique(Trans(a), SECTOR, track * SECTORS + s, bytes);
    DivModUnique(track * SECTORS + s, SECTORS, track, s);
    DivModUnique(x, SECTOR, a / SECTOR + SECTORS, a % SECTOR);
    DivModUnique(a / SECTOR + SECTORS, SECTORS, a / SECTOR / SECTORS + 1, a / SECTOR % SECTORS);
  }

  /** Every sector of a track is used. */
  lemma {:induction false} SkewedOnto(track: nat, s: nat) returns (sector: nat)
    requires track >= 1 && s < SECTORS
    ensures sector < SECTORS && Skewed(track, sector) == s
  {
    var turn := (track - 1) * 6;
    var u := (s - turn) % SECTORS;
    sector := if u % 2 == 0 then u / 2 else 13 + u / 2;
    var j := u % 2;
    assert u == 2 * (u / 2) + j && Interleave(sector) == u + SECTORS * j;
    var k := (s - turn) / SECTORS;
    assert s - turn == SECTORS * k + u;
    assert Interleave(sector) + SECTORS + turn == SECTORS * (j + 1 - k) + s;
    DivModUnique(Interleave(sector) + SECTORS + turn, SECTORS, j + 1 - k, s);
  }

  // ----- directory segments

  datatype Status = Temp | Null | File | Eseg

  datatype Entry = Entry(stat: Status, name: string, len: nat)

  function Total(s: seq<Entry>): nat {
    if s == [] then 0 else Total(s[..|s| - 1]) + s[|s| - 1].len
  }

  /** A file: its name, the block where it starts, and its length. */
  datatype Located = Located(name: string, start: nat, len: nat)

  predicate IsFile(e: Entry) {
    e.stat == File || e.stat == Temp
  }

  /** The files of a segment, in order, the first entry starting at `base`. */
  function Files(s: seq<Entry>, base: nat): seq<Located> {
    if s == [] then []
    else
      var front, e := s[..|s| - 1], s[|s| - 1];
      Files(front, base) + if IsFile(e) then [Located(e.name, base + Total(front), e.len)] else []
  }

  lemma {:induction false} TotalConcat(a: seq<Entry>, b: seq<Entry>)
    ensures Total(a + b) == Total(a) + Total(b)
  {
    if b == [] {
      assert a + b == a;
    } else {
      assert (a + b)[..|a + b| - 1] == a + b[..|b| - 1];
      TotalConcat(a, b[..|b| - 1]);
    }
  }

  lemma {:induction false} FilesConcat(a: seq<Entry>, b: seq<Entry>, base: nat)
    ensures Files(a + b, base) == Files(a, base) + Files(b, base + Total(a))
  {
    if b == [] {
      assert a + b == a;
    } else {
      var front, e := b[..|b| - 1], b[|b| - 1];
      assert (a + b)[..|a + b| - 1] == a + front;
      FilesConcat(a, front, base);
      TotalConcat(a, front);
    }
  }

  lemma {:induction false} OneEntry(e: Entry, base: nat)
    ensures Total([e]) == e.len
    ensures Files([e], base) == if IsFile(e) then [Located(e.name, base, e.len)] else []
  {
    assert [e][..0] == [];
  }

  lemma {:induction false} TwoEntries(e: Entry, f: Entry, base: nat)
    ensures Total([e, f]) == e.len + f.len
    ensures Files([e, f], base) == Files([e], base) + Files([f], base + e.len)
  {
    assert [e, f] == [e] + [f];
    TotalConcat([e], [f]);
    FilesConcat([e], [f], base);
    OneEntry(e, base);
    OneEntry(f, base + e.len);
  }

  /** Some entries of a segment are replaced by others of the same total length. */
  lemma {:induction false} Replaced(a: seq<Entry>, old': seq<Entry>, new': seq<Entry>, b: seq<Entry>, base: nat)
    requires Total(old') == Total(new')
    ensures Total(a + new' + b) == Total(a + old' + b)
    ensures Files(a + new' + b, base) ==
      Files(a, base) + Files(new', base + Total(a)) + Files(b, base + Total(a) + Total(old'))
    ensures Files(a + old' + b, base) ==
      Files(a, base) + Files(old', base + Total(a)) + Files(b, base + Total(a) + Total(old'))
  {
    hide Files, Total;
    TotalConcat(a + new', b);
    TotalConcat(a, new');
    TotalConcat(a + old', b);
    TotalConcat(a, old');
    FilesConcat(a + new', b, base);
    FilesConcat(a, new', base);
    FilesConcat(a + old', b, base);
    FilesConcat(a, old', base);
  }

  ghost predicate NoNeighbours(s: seq<Entry>) {
    forall i :: 0 <= i < |s| - 1 ==> !(s[i].stat == Null && s[i + 1].stat == Null)
  }

  class Segment {
    const ents: array<Entry>
    var curend: nat               // the entry that marks the end
    var beyond: bool              // an entry has been written that reaches behind the segment

    ghost predicate Valid()
      reads this, ents
    {
      && curend < ents.Length && ents[curend].stat == Eseg
      && forall i :: 0 <= i < curend ==> ents[i].stat != Eseg
    }

    ghost function Entries(): (s: seq<Entry>)
      requires curend <= ents.Length
      reads this, ents
      ensures |s| == curend
    {
      ents[..][..curend]
    }

    /** `*workp = workp[-1]` from the end down to the entry after `de`. */
    method MoveUp(de: nat)
      requires de <= curend && curend + 1 < ents.Length
      modifies ents
      ensures forall i :: 0 <= i <= de ==> ents[i] == old(ents[i])
      ensures forall i :: de < i <= curend + 1 ==> ents[i] == old(ents[..])[i - 1]
    {
      ghost var was := ents[..];
      var workp := curend + 1;
      while workp > de
        invariant de <= workp <= curend + 1
        invariant forall i :: 0 <= i <= workp ==> ents[i] == was[i] || i > curend
        invariant forall i :: 0 <= i <= workp && i <= curend ==> ents[i] == was[i]
        invariant forall i :: workp < i <= curend + 1 ==> ents[i] == was[i - 1]
      {
        ents[workp] := ents[workp - 1];
        workp := workp - 1;
      }
    }

    /**
     * `mkent`: the empty entry de gives `count` blocks to a new file. A full segment is an error,
     * unless the caller insists; then the file takes the whole of the entry.
     */
    method Mkent(de: nat, count: nat, name: string, insist: bool) returns (ok: bool)
      requires Valid() && de < curend && ents[de].stat == Null && count <= ents[de].len
      modifies this, ents
      ensures Valid()
      ensures beyond == (old(beyond) || (curend > old(curend) && curend >= ENTRIES))
      ensures ok <==> old(ents[de].len) == count || old(curend) + 1 < ents.Length || insist
      ensures !ok ==> Entries() == old(Entries())
      ensures ok ==> Entries() == WithFile(old(Entries()), de, name, count, old(curend) + 1 == ents.Length)
    {
      ok := true;
      if ents[de].len == count {
        Overwrite(de, name);
      } else if curend + 1 == ents.Length {
        if !insist {
          return false;
        }
        Overwrite(de, name);
      } else {
        SplitEntry(de, count, name);
      }
    }

    /** The label `overwrite`. */
    method Overwrite(de: nat, name: string)
      requires Valid() && de < curend
      modifies ents
      ensures Valid()
      ensures var s := old(Entries()); Entries() == s[..de] + [Entry(File, name, s[de].len)] + s[de + 1..]
    {
      ents[de] := Entry(File, name, ents[de].len);
    }

    method SplitEntry(de: nat, count: nat, name: string)
      requires Valid() && de < curend && curend + 1 < ents.Length && ents[de].stat == Null && count <= ents[de].len
      modifies this`curend, this`beyond, ents
      ensures Valid() && curend == old(curend) + 1 && beyond == (old(beyond) || curend >= ENTRIES)
      ensures var s := old(Entries());
        Entries() == s[..de] + [Entry(File, name, count), Entry(Null, s[de].name, s[de].len - count)] + s[de + 1..]
    {
      ghost var was := ents[..];
      MoveUp(de);
      ents[de + 1] := ents[de + 1].(len := ents[de + 1].len - count);
      ents[de] := ents[de].(len := count);
      curend := curend + 1;
      ents[de] := Entry(File, name, ents[de].len);
      beyond := beyond || !InSegment(curend);
      SplitIs(was, ents[..], de, curend - 1, ents[de], ents[de + 1]);
    }

    /** `rtk`, once the entry has been looked up. */
    method Rtk(de: nat)
      requires Valid() && de < curend
      modifies ents
      ensures Valid() && Entries() == old(Entries())[de := Entry(Null, "", old(ents[de].len))]
    {
      ents[de] := Entry(Null, "", ents[de].len);
    }

    /** `lookup` in one segment whose files begin at block `base`: the first file of that name. */
    method Lookup(name: string, base: nat) returns (found: bool, de: nat, start: nat)
      requires Valid()
      ensures found ==> de < curend && IsFile(ents[de]) && ents[de].name == name
      ensures found ==> start == base + Total(Entries()[..de])
      ensures forall i :: 0 <= i < (if found then de else curend) ==> !(IsFile(ents[i]) && ents[i].name == name)
    {
      var index := 0;
      de := 0;
      while ents[de].stat != Eseg
        invariant de <= curend && index == Total(Entries()[..de])
        invariant forall i :: 0 <= i < de ==> !(IsFile(ents[i]) && ents[i].name == name)
        decreases curend - de
      {
        if IsFile(ents[de]) && ents[de].name == name {
          return true, de, base + index;
        }
        index := index + ents[de].len;
        assert Entries()[..de + 1][..de] == Entries()[..de];
        de := de + 1;
      }
      return false, de, 0;
    }

    /** The loop of `scrunch` that closes up the entries behind `de`. */
    method MoveDown(de: nat)
      requires de <= curend < ents.Length
      modifies ents
      ensures forall i :: 0 <= i < de ==> ents[i] == old(ents[i])
      ensures forall i :: de <= i < curend ==> ents[i] == old(ents[..])[i + 1]
    {
      ghost var was := ents[..];
      var workp := de;
      while workp < curend
        invariant de <= workp <= curend
        invariant forall i :: 0 <= i < ents.Length && !(de <= i < workp) ==> ents[i] == was[i]
        invariant forall i :: de <= i < workp ==> ents[i] == was[i + 1]
      {
        ents[workp] := ents[workp + 1];
        workp := workp + 1;
      }
    }

    /** The second of two entries takes the room of both, and the first goes. */
    method TakeOver(de: nat)
      requires de + 1 < curend < ents.Length
      modifies ents
      ensures JoinedTo(old(ents[..]), ents[..], de, curend - 1)
    {
      ghost var was := ents[..];
      ents[de + 1] := ents[de + 1].(len := ents[de + 1].len + ents[de].len);
      ghost var grown := ents[..];
      MoveDown(de);
      assert forall i :: 0 <= i < de ==> ents[i] == grown[i];
      assert forall i :: de <= i < curend ==> ents[i] == grown[i + 1];
    }

    /** Two neighbouring empty entries become one. */
    method JoinNext(de: nat)
      requires Valid() && de + 1 < curend && ents[de].stat == Null == ents[de + 1].stat
      modifies this`curend, ents
      ensures Valid() && curend == old(curend) - 1
      ensures var s := old(Entries());
        Entries() == s[..de] + [s[de + 1].(len := s[de].len + s[de + 1].len)] + s[de + 2..]
    {
      ghost var was := ents[..];
      TakeOver(de);
      curend := curend - 1;
      assert ents[curend] == ents[..][curend];
      assert forall i :: 0 <= i < curend ==> ents[i] == ents[..][i];
    }

    /** The body of the loop of `scrunch` where it joins two entries. */
    method JoinAt(de: nat, ghost base: nat)
      requires Valid() && de + 1 < curend && ents[de].stat == Null == ents[de + 1].stat
      modifies this`curend, ents
      ensures Valid() && curend == old(curend) - 1
      ensures Total(Entries()) == old(Total(Entries())) && Files(Entries(), base) == old(Files(Entries(), base))
      ensures Entries() == JoinedAt(old(Entries()), de)
      ensures ents[de].stat == Null && forall i :: 0 <= i < de ==> ents[i] == old(ents[i])
    {
      hide Total, Files;
      ghost var s := Entries();
      Joined(s, de, base);
      JoinNext(de);
      assert forall i :: 0 <= i <= de ==> ents[i] == Entries()[i];
      assert forall i :: 0 <= i < de ==> s[i] == old(ents[i]);
    }

    /**
     * `scrunch` on one segment: no two empty entries are neighbours afterwards, and every file
     * is where it was.
     */
    method Scrunch(ghost base: nat)
      requires Valid()
      modifies this`curend, ents
      ensures Valid() && NoNeighbours(Entries()) && Entries() == Squeezed(old(Entries()), 0)
      ensures Total(Entries()) == old(Total(Entries())) && Files(Entries(), base) == old(Files(Entries(), base))
    {
      hide Total, Files, JoinedAt;
      ghost var s := Entries();
      var de := 0;
      while de <= curend
        invariant Valid() && de <= curend + 1 && Squeezed(Entries(), de) == Squeezed(s, 0)
        invariant Total(Entries()) == old(Total(Entries())) && Files(Entries(), base) == old(Files(Entries(), base))
        invariant forall i :: 0 <= i < de && i < curend - 1 ==> !(ents[i].stat == Null == ents[i + 1].stat)
        decreases curend - de
      {
        assert forall i :: 0 <= i < curend ==> Entries()[i] == ents[i];
        if ents[de].stat == Null && ents[de + 1].stat == Null {
          assert de + 1 < curend;
          JoinAt(de, base);
        } else {
          de := de + 1;
        }
      }
      assert forall i :: 0 <= i < curend ==> Entries()[i] == ents[i];
    }

    // ----- commands

    /** The search of `rtr` for an empty entry that is long enough. */
    method FindEmpty(count: nat) returns (found: bool, de: nat)
      requires Valid()
      ensures found ==> de < curend && ents[de].stat == Null && count <= ents[de].len
      ensures forall i :: 0 <= i < (if found then de else curend) ==> !(ents[i].stat == Null && count <= ents[i].len)
    {
      de := 0;
      while ents[de].stat != Eseg
        invariant de <= curend
        invariant forall i :: 0 <= i < de ==> !(ents[i].stat == Null && count <= ents[i].len)
        decreases curend - de
      {
        if ents[de].stat == Null && count <= ents[de].len {
          return true, de;
        }
        de := de + 1;
      }
      return false, de;
    }

    /**
     * `rtr` for a file of `count` blocks: it goes into the file of that name, if it fits there, or
     * else into the first gap that is long enough.
     */
    method Put(name: string, count: nat, insist: bool, base: nat) returns (outcome: Outcome)
      requires Valid() && NamesDiffer(Files(Entries(), base))
      modifies this, ents
      ensures Valid() && (outcome, Entries()) == After(old(Entries()), Replace(name, count, insist), ents.Length)
      ensures Total(Entries()) == old(Total(Entries())) && NamesDiffer(Files(Entries(), base))
      ensures Survive(old(Files(Entries(), base)), Files(Entries(), base), {})
      ensures outcome.Fine? ==> exists x :: x in Files(Entries(), base) && x.name == name && count <= x.len
      ensures beyond == (old(beyond) || Overruns(old(Entries()), Replace(name, count, insist), ents.Length))
    {
      hide Total, Files, NamesDiffer, WithFile;
      ghost var s := Entries();
      var found, de, start := Lookup(name, base);
      assert forall i :: 0 <= i < curend ==> s[i] == ents[i];
      if found {
        Listed(s, de, base);
        return if count <= ents[de].len then Fine else Refused;
      }
      Unlisted(s, name, base);
      found, de := FindEmpty(count);
      if !found {
        return Refused;
      }
      NewFileSurvives(s, de, name, count, curend + 1 == ents.Length, base);
      var ok := Mkent(de, count, name, insist);
      outcome := if ok then Fine else DirectoryFull;
    }

    /** `rtk`: the file of that name goes, if there is one. */
    method Remove(name: string, base: nat) returns (outcome: Outcome)
      requires Valid() && NamesDiffer(Files(Entries(), base))
      modifies this, ents
      ensures Valid() && (outcome, Entries()) == After(old(Entries()), Delete(name), ents.Length)
      ensures Total(Entries()) == old(Total(Entries())) && NamesDiffer(Files(Entries(), base))
      ensures Survive(old(Files(Entries(), base)), Files(Entries(), base), {name})
      ensures forall x :: x in Files(Entries(), base) ==> x.name != name
      ensures outcome.Fine? <==> old(exists x :: x in Files(Entries(), base) && x.name == name)
      ensures beyond == old(beyond)
    {
      hide Total, Files, NamesDiffer;
      ghost var s := Entries();
      var found, de, start := Lookup(name, base);
      assert forall i :: 0 <= i < curend ==> s[i] == ents[i];
      if found {
        Listed(s, de, base);
        GoneSurvives(s, de, base);
        Rtk(de);
        return Fine;
      }
      Unlisted(s, name, base);
      return Refused;
    }

    /**
     * Any run of commands, to its end or to a full directory: what is done is what the commands
     * say one after the other. No block is lost, no name comes twice, and every file that was
     * there and has not been removed is where it was, as long as it was. The segment is
     * overrun exactly when one of the commands overruns it.
     */
    method Run(cmds: seq<Command>, base: nat) returns (outcomes: seq<Outcome>)
      requires Valid() && NamesDiffer(Files(Entries(), base))
      modifies this, ents
      ensures Valid() && |outcomes| <= |cmds|
      ensures (outcomes, Entries()) == AfterAll(old(Entries()), cmds[..|outcomes|], ents.Length)
      ensures |outcomes| < |cmds| ==> outcomes != [] && outcomes[|outcomes| - 1] == DirectoryFull
      ensures forall i :: 0 <= i < |outcomes| - 1 ==> outcomes[i] != DirectoryFull
      ensures Total(Entries()) == old(Total(Entries())) && NamesDiffer(Files(Entries(), base))
      ensures Survive(old(Files(Entries(), base)), Files(Entries(), base), Removed(cmds[..|outcomes|]))
      ensures beyond == (old(beyond) || OverrunBy(old(Entries()), cmds[..|outcomes|], ents.Length))
    {
      hide Total, Files, NamesDiffer, After, Overruns;
      outcomes := [];
      var going := true;
      assert cmds[..0] == [];
      while going && |outcomes| < |cmds|
        invariant Valid() && |outcomes| <= |cmds|
        invariant Total(Entries()) == old(Total(Entries())) && NamesDiffer(Files(Entries(), base))
        invariant (outcomes, Entries()) == AfterAll(old(Entries()), cmds[..|outcomes|], ents.Length)
        invariant going <==> outcomes == [] || outcomes[|outcomes| - 1] != DirectoryFull
        invariant forall i :: 0 <= i < |outcomes| - 1 ==> outcomes[i] != DirectoryFull
        invariant Survive(old(Files(Entries(), base)), Files(Entries(), base), Removed(cmds[..|outcomes|]))
        invariant beyond == (old(beyond) || OverrunBy(old(Entries()), cmds[..|outcomes|], ents.Length))
        decreases |cmds| - |outcomes|
      {
        var n := |outcomes|;
        var outcome := Obey(cmds[n], base);
        assert cmds[..n + 1][..n] == cmds[..n] && cmds[..n + 1][n] == cmds[n];
        outcomes := outcomes + [outcome];
        going := outcome != DirectoryFull;
      }
    }

    method Obey(cmd: Command, base: nat) returns (outcome: Outcome)
      requires Valid() && NamesDiffer(Files(Entries(), base))
      modifies this, ents
      ensures Valid() && (outcome, Entries()) == After(old(Entries()), cmd, ents.Length)
      ensures Total(Entries()) == old(Total(Entries())) && NamesDiffer(Files(Entries(), base))
      ensures Survive(old(Files(Entries(), base)), Files(Entries(), base), if cmd.Delete? then {cmd.name} else {})
      ensures beyond == (old(beyond) || Overruns(old(Entries()), cmd, ents.Length))
    {
      hide Total, Files, NamesDiffer, FirstFile, FirstGap, WithFile;
      OverrunsExactly(Entries(), cmd, ents.Length);
      match cmd {
        case Replace(name, count, insist) => outcome := Put(name, count, insist, base);
        case Delete(name) => outcome := Remove(name, base);
        case Squeeze =>
          Scrunch(base);
          outcome := Fine;
      }
    }
  }

  // ----- the end of a segment

  const SEGMENT: nat := 1024
  const HEAD: nat := 10
  const ENTRY: nat := 14
  const ENTRIES: nat := 72

  /** Entry i lies in the segment, behind its head; so 72 entries do. */
  predicate InSegment(i: nat)
    ensures InSegment(i) <==> i < ENTRIES
  {
    HEAD + (i + 1) * ENTRY <= SEGMENT
  }

  // ----- what the commands do

  datatype Command = Replace(name: string, count: nat, insist: bool) | Delete(name: string) | Squeeze

  /** When the directory is full arff gives up. */
  datatype Outcome = Fine | Refused | DirectoryFull

  /** The first file of that name, or the length of the segment. */
  function FirstFile(s: seq<Entry>, name: string): (i: nat)
    ensures i <= |s| && (i < |s| ==> IsFile(s[i]) && s[i].name == name)
    ensures forall j :: 0 <= j < i ==> !(IsFile(s[j]) && s[j].name == name)
  {
    if s == [] then 0
    else
      var i := FirstFile(s[..|s| - 1], name);
      if i < |s| - 1 then i else if IsFile(s[i]) && s[i].name == name then i else |s|
  }

  /** The first gap that is long enough, or the length of the segment. */
  function FirstGap(s: seq<Entry>, count: nat): (i: nat)
    ensures i <= |s| && (i < |s| ==> s[i].stat == Null && count <= s[i].len)
    ensures forall j :: 0 <= j < i ==> !(s[j].stat == Null && count <= s[j].len)
  {
    if s == [] then 0
    else
      var i := FirstGap(s[..|s| - 1], count);
      if i < |s| - 1 then i else if s[i].stat == Null && count <= s[i].len then i else |s|
  }

  /** Two entries as one. */
  function JoinedAt(s: seq<Entry>, de: nat): (t: seq<Entry>)
    requires de + 1 < |s|
    ensures |t| == |s| - 1
  {
    s[..de] + [s[de + 1].(len := s[de].len + s[de + 1].len)] + s[de + 2..]
  }

  /** All neighbouring gaps from entry de on as one. */
  function Squeezed(s: seq<Entry>, de: nat): seq<Entry>
    decreases |s|, |s| - de
  {
    if de + 1 >= |s| then s
    else if s[de].stat == Null == s[de + 1].stat then Squeezed(JoinedAt(s, de), de)
    else Squeezed(s, de + 1)
  }

  /** A segment with room for so many entries, and its end mark, after a command. */
  function After(s: seq<Entry>, cmd: Command, room: nat): (Outcome, seq<Entry>) {
    match cmd
    case Replace(name, count, insist) =>
      var i, g := FirstFile(s, name), FirstGap(s, count);
      if i < |s| then (if count <= s[i].len then Fine else Refused, s)
      else if g == |s| then (Refused, s)
      else if s[g].len == count || |s| + 1 < room || insist then
        (Fine, WithFile(s, g, name, count, |s| + 1 == room))
      else (DirectoryFull, s)
    case Delete(name) =>
      var i := FirstFile(s, name);
      if i < |s| then (Fine, s[i := Entry(Null, "", s[i].len)]) else (Refused, s)
    case Squeeze => (Fine, Squeezed(s, 0))
  }

  /**
   * A file goes into the file of its name if and only if it fits there. If there is none it is
   * refused if and only if no gap is long enough; the directory is full if and only if it would
   * leave part of the first such gap, has no room for that, and may not take all of it.
   */
  lemma {:induction false} StoreDecides(s: seq<Entry>, name: string, count: nat, insist: bool, room: nat)
    requires |s| < room
    ensures var (outcome, now) := After(s, Replace(name, count, insist), room);
      && (forall i :: 0 <= i < |s| && FirstNamed(s, i, name) ==>
            now == s && outcome == if count <= s[i].len then Fine else Refused)
      && ((forall i :: 0 <= i < |s| ==> !Names(s, i, name)) ==>
            && (outcome == Refused <==> forall g :: 0 <= g < |s| ==> !LongEnough(s, g, count))
            && forall g :: 0 <= g < |s| && FirstLongEnough(s, g, count) ==>
                 (outcome == DirectoryFull <==> s[g].len > count && |s| + 1 == room && !insist))
  {
    var i, g := FirstFile(s, name), FirstGap(s, count);
    assert i < |s| ==> Names(s, i, name);
    assert g < |s| ==> LongEnough(s, g, count);
    forall k | 0 <= k < |s| && FirstNamed(s, k, name)
      ensures k == i
    {
      assert i < |s| && Names(s, i, name);
    }
    forall k | 0 <= k < |s| && FirstLongEnough(s, k, count)
      ensures k == g
    {
      assert g < |s| && LongEnough(s, g, count);
    }
  }

  predicate Names(s: seq<Entry>, i: nat, name: string)
    requires i < |s|
  {
    IsFile(s[i]) && s[i].name == name
  }

  predicate FirstNamed(s: seq<Entry>, i: nat, name: string)
    requires i < |s|
  {
    Names(s, i, name) && forall j :: 0 <= j < i ==> !Names(s, j, name)
  }

  predicate FirstLongEnough(s: seq<Entry>, g: nat, count: nat)
    requires g < |s|
  {
    LongEnough(s, g, count) && forall j :: 0 <= j < g ==> !LongEnough(s, j, count)
  }

  predicate LongEnough(s: seq<Entry>, g: nat, count: nat)
    requires g < |s|
  {
    s[g].stat == Null && s[g].len >= count
  }

  function AfterAll(s: seq<Entry>, cmds: seq<Command>, room: nat): (seq<Outcome>, seq<Entry>) {
    if cmds == [] then ([], s)
    else
      var (outcomes, t) := AfterAll(s, cmds[..|cmds| - 1], room);
      var (outcome, now) := After(t, cmds[|cmds| - 1], room);
      (outcomes + [outcome], now)
  }

  /**
   * A command overruns the segment if there are more entries after it than before, and the last
   * of them, the end mark, does not lie in the segment.
   */
  predicate Overruns(s: seq<Entry>, cmd: Command, room: nat) {
    var now := After(s, cmd, room).1;
    |now| > |s| && !InSegment(|now|)
  }

  /** One of the commands overruns it. */
  predicate OverrunBy(s: seq<Entry>, cmds: seq<Command>, room: nat) {
    cmds != []
    && var front := cmds[..|cmds| - 1];
    OverrunBy(s, front, room) || Overruns(AfterAll(s, front, room).1, cmds[|cmds| - 1], room)
  }

  lemma {:induction false} SqueezedShorter(s: seq<Entry>, de: nat)
    ensures |Squeezed(s, de)| <= |s|
    decreases |s|, |s| - de
  {
    if de + 1 < |s| {
      if s[de].stat == Null == s[de + 1].stat {
        SqueezedShorter(JoinedAt(s, de), de);
      } else {
        SqueezedShorter(s, de + 1);
      }
    }
  }

  /** Only a new file that leaves part of a gap, in a directory of 71 entries or more, overruns the segment. */
  lemma {:induction false} OverrunsExactly(s: seq<Entry>, cmd: Command, room: nat)
    requires |s| < room
    ensures Overruns(s, cmd, room) <==>
      && cmd.Replace? && FirstFile(s, cmd.name) == |s| && |s| + 1 < room && |s| >= ENTRIES - 1
      && var g := FirstGap(s, cmd.count); g < |s| && s[g].len > cmd.count
  {
    if cmd.Squeeze? {
      SqueezedShorter(s, 0);
    }
  }

  function Removed(cmds: seq<Command>): set<string> {
    if cmds == [] then {}
    else
      var c := cmds[|cmds| - 1];
      Removed(cmds[..|cmds| - 1]) + if c.Delete? then {c.name} else {}
  }

  /** Every file but those of the names given is still there, at its place. */
  ghost predicate Survive(before: seq<Located>, after: seq<Located>, gone: set<string>) {
    forall x :: x in before && x.name !in gone ==> x in after
  }

  ghost predicate NamesDiffer(files: seq<Located>) {
    forall i, j :: 0 <= i < j < |files| ==> files[i].name != files[j].name
  }

  /** The files lie one behind the other, between two blocks. */
  ghost predicate InOrder(files: seq<Located>, from: nat, to: nat) {
    && (forall i :: 0 <= i < |files| ==> from <= files[i].start && files[i].start + files[i].len <= to)
    && forall i, j :: 0 <= i < j < |files| ==> files[i].start + files[i].len <= files[j].start
  }

  /** No two files of a segment share a block. */
  lemma {:induction false} FilesApart(s: seq<Entry>, base: nat)
    ensures InOrder(Files(s, base), base, base + Total(s))
  {
    if s != [] {
      var front, e := s[..|s| - 1], s[|s| - 1];
      FilesApart(front, base);
    }
  }

  /** An entry that is a file is listed, and everything listed is an entry. */
  lemma {:induction false} Listed(s: seq<Entry>, de: nat, base: nat)
    requires de < |s| && IsFile(s[de])
    ensures Located(s[de].name, base + Total(s[..de]), s[de].len) in Files(s, base)
  {
    FileGone(s, de, base);
  }

  lemma {:induction false} Unlisted(s: seq<Entry>, name: string, base: nat)
    requires forall i :: 0 <= i < |s| ==> !(IsFile(s[i]) && s[i].name == name)
    ensures forall x :: x in Files(s, base) ==> x.name != name
  {
    if s != [] {
      Unlisted(s[..|s| - 1], name, base);
    }
  }

  lemma {:induction false} NewFileSurvives(s: seq<Entry>, de: nat, name: string, count: nat, full: bool, base: nat)
    requires de < |s| && s[de].stat == Null && count <= s[de].len
    requires NamesDiffer(Files(s, base)) && forall x :: x in Files(s, base) ==> x.name != name
    ensures var t := WithFile(s, de, name, count, full);
      && Total(t) == Total(s) && NamesDiffer(Files(t, base)) && Survive(Files(s, base), Files(t, base), {})
      && exists x :: x in Files(t, base) && x.name == name && count <= x.len
  {
    hide Total, Files, WithFile;
    NewFile(s, de, name, count, full, base);
    var start := base + Total(s[..de]);
    var x := Located(name, start, if s[de].len == count || full then s[de].len else count);
    PutBetween(Files(s[..de], base), x, Files(s[de + 1..], start + s[de].len));
  }

  lemma {:induction false} GoneSurvives(s: seq<Entry>, de: nat, base: nat)
    requires de < |s| && IsFile(s[de]) && NamesDiffer(Files(s, base))
    ensures var t := s[de := Entry(Null, "", s[de].len)];
      && Total(t) == Total(s) && NamesDiffer(Files(t, base)) && Survive(Files(s, base), Files(t, base), {s[de].name})
      && forall x :: x in Files(t, base) ==> x.name != s[de].name
  {
    hide Total, Files;
    FileGone(s, de, base);
    var start := base + Total(s[..de]);
    TakeBetween(Files(s[..de], base), Located(s[de].name, start, s[de].len), Files(s[de + 1..], start + s[de].len));
  }

  lemma {:induction false} PutBetween(a: seq<Located>, x: Located, b: seq<Located>)
    requires NamesDiffer(a + b) && forall y :: y in a + b ==> y.name != x.name
    ensures NamesDiffer(a + [x] + b) && Survive(a + b, a + [x] + b, {}) && x in a + [x] + b
  {
    var t := a + [x] + b;
    forall i, j | 0 <= i < j < |t| ensures t[i].name != t[j].name {
      assert i < |a| ==> t[i] == (a + b)[i];
      assert i > |a| ==> t[i] == (a + b)[i - 1];
      assert j < |a| ==> t[j] == (a + b)[j];
      assert j > |a| ==> t[j] == (a + b)[j - 1];
    }
  }

  lemma {:induction false} TakeBetween(a: seq<Located>, x: Located, b: seq<Located>)
    requires NamesDiffer(a + [x] + b)
    ensures NamesDiffer(a + b) && Survive(a + [x] + b, a + b, {x.name}) && forall y :: y in a + b ==> y.name != x.name
  {
    var s, t := a + [x] + b, a + b;
    assert s[|a|] == x;
    forall i | 0 <= i < |t| ensures t[i] == s[if i < |a| then i else i + 1] {
    }
  }

  // ----- what the operations do to the files

  /** Two entries have been joined and the rest, up to the new end mark, has moved down. */
  ghost predicate JoinedTo(was: seq<Entry>, now: seq<Entry>, de: nat, curend: nat) {
    && de + 1 < curend + 1 < |was| == |now|
    && now[de] == was[de + 1].(len := was[de + 1].len + was[de].len)
    && (forall i :: 0 <= i < de ==> now[i] == was[i])
    && forall i :: de < i <= curend ==> now[i] == was[i + 1]
  }

  /** The array after room has been made for a file of `count` blocks in front of the entry de. */
  lemma {:induction false} SplitIs(was: seq<Entry>, now: seq<Entry>, de: nat, curend: nat, e: Entry, f: Entry)
    requires de < curend < |was| == |now| && curend + 1 < |was| && now[de] == e && now[de + 1] == f
    requires (forall i :: 0 <= i < de ==> now[i] == was[i])
    requires forall i :: de + 1 < i <= curend ==> now[i] == was[i - 1]
    ensures var s := was[..curend]; now[..curend + 1] == s[..de] + [e, f] + s[de + 1..]
  {
  }

  /** The segment after a new file has been put into the empty entry de; `full` says that the segment has no room. */
  function WithFile(s: seq<Entry>, de: nat, name: string, count: nat, full: bool): seq<Entry>
    requires de < |s| && count <= s[de].len
  {
    s[..de] + MadeOf(s[de], name, count, full) + s[de + 1..]
  }

  function MadeOf(e: Entry, name: string, count: nat, full: bool): seq<Entry>
    requires count <= e.len
  {
    if e.len == count || full then [Entry(File, name, e.len)]
    else [Entry(File, name, count), Entry(Null, e.name, e.len - count)]
  }

  lemma {:induction false} Whole(s: seq<Entry>, de: nat)
    requires de < |s|
    ensures s == s[..de] + [s[de]] + s[de + 1..]
  {
  }

  /** A new file comes where the empty entry was; no other file moves, and no block is lost. */
  lemma {:induction false} NewFile(s: seq<Entry>, de: nat, name: string, count: nat, full: bool, base: nat)
    requires de < |s| && s[de].stat == Null && count <= s[de].len
    ensures var start := base + Total(s[..de]);
      var before, after := Files(s[..de], base), Files(s[de + 1..], start + s[de].len);
      && Files(s, base) == before + after
      && Files(WithFile(s, de, name, count, full), base) ==
        before + [Located(name, start, if s[de].len == count || full then s[de].len else count)] + after
    ensures Total(WithFile(s, de, name, count, full)) == Total(s)
  {
    hide Files, Total, MadeOf;
    var made, start := MadeOf(s[de], name, count, full), base + Total(s[..de]);
    OneEntry(s[de], start);
    Made(s[de], name, count, full, start);
    Whole(s, de);
    Replaced(s[..de], [s[de]], made, s[de + 1..], base);
    NoFileBetween(Files(s[..de], base), Files(s[de + 1..], start + s[de].len));
  }

  lemma {:induction false} Made(e: Entry, name: string, count: nat, full: bool, start: nat)
    requires e.stat == Null && count <= e.len
    ensures Total(MadeOf(e, name, count, full)) == e.len
    ensures Files(MadeOf(e, name, count, full), start) ==
      [Located(name, start, if e.len == count || full then e.len else count)]
  {
    hide Files, Total;
    var made := MadeOf(e, name, count, full);
    OneEntry(made[0], start);
    if |made| == 2 {
      TwoEntries(made[0], made[1], start);
      OneEntry(made[1], start + count);
    }
  }

  lemma {:induction false} NoFileBetween(a: seq<Located>, b: seq<Located>)
    ensures a + [] + b == a + b
  {
  }

  /** Deleting a file leaves the others where they are. */
  lemma {:induction false} FileGone(s: seq<Entry>, de: nat, base: nat)
    requires de < |s| && IsFile(s[de])
    ensures var start := base + Total(s[..de]);
      var before, after := Files(s[..de], base), Files(s[de + 1..], start + s[de].len);
      && Files(s, base) == before + [Located(s[de].name, start, s[de].len)] + after
      && Files(s[de := Entry(Null, "", s[de].len)], base) == before + after
    ensures Total(s[de := Entry(Null, "", s[de].len)]) == Total(s)
  {
    var e := Entry(Null, "", s[de].len);
    var start := base + Total(s[..de]);
    hide Files, Total;
    OneEntry(s[de], start);
    OneEntry(e, start);
    Whole(s, de);
    assert s[de := e] == s[..de] + [e] + s[de + 1..];
    Replaced(s[..de], [s[de]], [e], s[de + 1..], base);
    NoFileBetween(Files(s[..de], base), Files(s[de + 1..], start + s[de].len));
  }

  /** Joining two empty entries moves no file. */
  lemma {:induction false} Joined(s: seq<Entry>, de: nat, base: nat)
    requires de + 1 < |s| && s[de].stat == Null == s[de + 1].stat
    ensures var t := s[..de] + [s[de + 1].(len := s[de].len + s[de + 1].len)] + s[de + 2..];
      Total(t) == Total(s) && Files(t, base) == Files(s, base)
  {
    hide Files, Total;
    var e := s[de + 1].(len := s[de].len + s[de + 1].len);
    var start := base + Total(s[..de]);
    OneEntry(e, start);
    OneEntry(s[de], start);
    OneEntry(s[de + 1], start + s[de].len);
    TwoEntries(s[de], s[de + 1], start);
    assert s == s[..de] + [s[de], s[de + 1]] + s[de + 2..];
    Replaced(s[..de], [s[de], s[de + 1]], [e], s[de + 2..], base);
  }
}
