/**
 * The conversions of bin/dd.c between lines and fixed-length records, `block` and `unblock`,
 * and the output buffer behind them, `null` and `flsh`.
 */
module RecordConv {

  type byte = x: int | 0 <= x < 256

  const SPACE: byte := 32
  const NL: byte := 10

  // ----- lines and records

  /** Neither longer than a record nor with a newline in it. */
  predicate IsLine(l: seq<byte>) {
    forall i :: 0 <= i < |l| ==> l[i] != NL
  }

  function Cut(l: seq<byte>, cbs: nat): (r: seq<byte>)
    ensures |r| <= cbs && |r| <= |l| && r == l[..|r|]
  {
    if |l| <= cbs then l else l[..cbs]
  }

  function Spaces(n: nat): (s: seq<byte>)
    ensures |s| == n && forall i :: 0 <= i < n ==> s[i] == SPACE
  {
    seq(n, i => SPACE)
  }

  /** A line as a record: cut, or filled up with spaces. */
  function Fixed(l: seq<byte>, cbs: nat): (r: seq<byte>)
    ensures |r| == cbs
  {
    Cut(l, cbs) + Spaces(cbs - |Cut(l, cbs)|)
  }

  /** Without trailing spaces. */
  function Trimmed(s: seq<byte>): (r: seq<byte>)
    ensures |r| <= |s| && r == s[..|r|]
    ensures r != [] ==> r[|r| - 1] != SPACE
    ensures forall i :: |r| <= i < |s| ==> s[i] == SPACE
  {
    if s == [] || s[|s| - 1] != SPACE then s else Trimmed(s[..|s| - 1])
  }

  lemma {:induction false} TrimmedUnique(s: seq<byte>, r: seq<byte>)
    requires |r| <= |s| && r == s[..|r|] && (r != [] ==> r[|r| - 1] != SPACE)
    requires forall i :: |r| <= i < |s| ==> s[i] == SPACE
    ensures Trimmed(s) == r
  {
    if |r| < |s| {
      TrimmedUnique(s[..|s| - 1], r);
    }
  }

  /** Lines, each with its newline. */
  function Text(lines: seq<seq<byte>>): seq<byte> {
    if lines == [] then [] else lines[0] + [NL] + Text(lines[1..])
  }

  function Records(rs: seq<seq<byte>>): seq<byte> {
    if rs == [] then [] else rs[0] + Records(rs[1..])
  }

  // ----- what the conversions put out

  /** `block` on s, from column cbc on. */
  function Blocked(s: seq<byte>, cbs: nat, cbc: nat): seq<byte> {
    if s == [] then []
    else if s[0] == NL then (if cbc < cbs then Spaces(cbs - cbc) else []) + Blocked(s[1..], cbs, 0)
    else (if cbc < cbs then [s[0]] else []) + Blocked(s[1..], cbs, cbc + 1)
  }

  /** The column after s. */
  function Column(s: seq<byte>, cbc: nat): nat {
    if s == [] then cbc else if s[0] == NL then Column(s[1..], 0) else Column(s[1..], cbc + 1)
  }

  /** How many lines turn out too long. */
  function Truncated(s: seq<byte>, cbs: nat, cbc: nat): nat {
    if s == [] then 0
    else if s[0] == NL then Truncated(s[1..], cbs, 0)
    else (if cbc == cbs then 1 else 0) + Truncated(s[1..], cbs, cbc + 1)
  }

  /** What `unblock` puts out for one character, and the column and the spaces held back after it. */
  function PutFor(c: byte, cbs: nat, cbc: nat, pending: nat): seq<byte> {
    (if c == SPACE then [] else Spaces(pending) + [c]) + if cbc + 1 == cbs then [NL] else []
  }

  function NextColumn(cbs: nat, cbc: nat): (r: nat)
    requires cbc < cbs
    ensures r < cbs
  {
    if cbc + 1 == cbs then 0 else cbc + 1
  }

  function NextPending(c: byte, cbs: nat, cbc: nat, pending: nat): nat {
    if cbc + 1 == cbs || c != SPACE then 0 else pending + 1
  }

  /** `unblock` on s, from column cbc on, with `pending` spaces held back. */
  function Unblocked(s: seq<byte>, cbs: nat, cbc: nat, pending: nat): seq<byte>
    requires cbc < cbs
  {
    if s == [] then []
    else
      var rest := Unblocked(s[1..], cbs, NextColumn(cbs, cbc), NextPending(s[0], cbs, cbc, pending));
      PutFor(s[0], cbs, cbc, pending) + rest
  }

  // ----- block makes records of lines

  lemma {:induction false} BlockedLine(l: seq<byte>, rest: seq<byte>, cbs: nat, cbc: nat)
    requires IsLine(l)
    ensures Blocked(l + [NL] + rest, cbs, cbc) ==
      (if cbc < cbs then Fixed(l, cbs - cbc) else []) + Blocked(rest, cbs, 0)
    decreases |l|
  {
    var s := l + [NL] + rest;
    if l == [] {
      assert s[1..] == rest;
      assert cbc < cbs ==> Fixed(l, cbs - cbc) == Spaces(cbs - cbc);
    } else {
      hide Fixed;
      assert s[1..] == l[1..] + [NL] + rest && s[0] == l[0];
      BlockedLine(l[1..], rest, cbs, cbc + 1);
      if cbc < cbs {
        Associate([l[0]], if cbc + 1 < cbs then Fixed(l[1..], cbs - cbc - 1) else [], Blocked(rest, cbs, 0));
      }
    }
  }

  lemma {:induction false} TruncatedLine(l: seq<byte>, rest: seq<byte>, cbs: nat, cbc: nat)
    requires IsLine(l)
    ensures Truncated(l + [NL] + rest, cbs, cbc) ==
      (if cbc <= cbs < cbc + |l| then 1 else 0) + Truncated(rest, cbs, 0)
    decreases |l|
  {
    var s := l + [NL] + rest;
    if l == [] {
      assert s[1..] == rest;
    } else {
      assert s[1..] == l[1..] + [NL] + rest;
      TruncatedLine(l[1..], rest, cbs, cbc + 1);
    }
  }

  ghost predicate AllLines(lines: seq<seq<byte>>) {
    forall i :: 0 <= i < |lines| ==> IsLine(lines[i])
  }

  function AllFixed(lines: seq<seq<byte>>, cbs: nat): (rs: seq<seq<byte>>)
    ensures |rs| == |lines|
  {
    if lines == [] then [] else [Fixed(lines[0], cbs)] + AllFixed(lines[1..], cbs)
  }

  function AllTrimmed(rs: seq<seq<byte>>): (lines: seq<seq<byte>>)
    ensures |lines| == |rs|
  {
    if rs == [] then [] else [Trimmed(rs[0])] + AllTrimmed(rs[1..])
  }

  function AllCut(lines: seq<seq<byte>>, cbs: nat): (r: seq<seq<byte>>)
    ensures |r| == |lines|
  {
    if lines == [] then [] else [Cut(lines[0], cbs)] + AllCut(lines[1..], cbs)
  }

  function TooLong(lines: seq<seq<byte>>, cbs: nat): nat {
    if lines == [] then 0 else (if |lines[0]| > cbs then 1 else 0) + TooLong(lines[1..], cbs)
  }

  /** Each line becomes one record, and `ntrunc` counts the lines that do not fit. */
  lemma {:induction false} BlockedLines(lines: seq<seq<byte>>, cbs: nat)
    requires AllLines(lines) && cbs > 0
    ensures Blocked(Text(lines), cbs, 0) == Records(AllFixed(lines, cbs))
    ensures Truncated(Text(lines), cbs, 0) == TooLong(lines, cbs)
  {
    if lines != [] {
      BlockedLine(lines[0], Text(lines[1..]), cbs, 0);
      TruncatedLine(lines[0], Text(lines[1..]), cbs, 0);
      BlockedLines(lines[1..], cbs);
    }
  }

  // ----- unblock makes lines of records

  /** What is put out for the end of a record, of which `all` is the part held back and the part to come. */
  function Rest(all: seq<byte>, pending: nat): seq<byte> {
    var t := Trimmed(all);
    if |t| <= pending then [] else t
  }

  lemma {:induction false} RestSpace(all: seq<byte>, pending: nat)
    requires pending < |all| && forall i :: 0 <= i <= pending ==> all[i] == SPACE
    ensures Rest(all, pending) == Rest(all, pending + 1)
  {
    var t := Trimmed(all);
    assert t != [] ==> t[|t| - 1] == all[|t| - 1];
  }

  lemma {:induction false} RestOther(pending: nat, c: byte, r: seq<byte>)
    requires c != SPACE
    ensures Rest(Spaces(pending) + [c] + r, pending) == Spaces(pending) + [c] + Rest(r, 0)
  {
    TrimmedUnique(Spaces(pending) + [c] + r, Spaces(pending) + [c] + Trimmed(r));
  }

  lemma {:induction false} LastOfRecord(c: byte, rest: seq<byte>, cbs: nat, pending: nat)
    requires cbs > 0
    ensures Unblocked([c] + rest, cbs, cbs - 1, pending) ==
      Rest(Spaces(pending) + [c], pending) + [NL] + Unblocked(rest, cbs, 0, 0)
  {
    assert ([c] + rest)[1..] == rest;
    if c == SPACE {
      TrimmedUnique(Spaces(pending) + [c], []);
    } else {
      TrimmedUnique(Spaces(pending) + [c], Spaces(pending) + [c]);
      assert Spaces(pending) + [c, NL] == Spaces(pending) + [c] + [NL];
    }
  }

  /** The rest r of a record, after `pending` spaces that may still be trailing ones. */
  lemma {:induction false} UnblockedRecord(r: seq<byte>, rest: seq<byte>, cbs: nat, pending: nat)
    requires 0 < |r| <= cbs
    ensures Unblocked(r + rest, cbs, cbs - |r|, pending) ==
      Rest(Spaces(pending) + r, pending) + [NL] + Unblocked(rest, cbs, 0, 0)
    decreases |r|
  {
    hide Rest;
    if |r| == 1 {
      assert r == [r[0]];
      LastOfRecord(r[0], rest, cbs, pending);
    } else {
      assert (r + rest)[1..] == r[1..] + rest;
      var all := Spaces(pending) + r;
      if r[0] == SPACE {
        assert Spaces(pending + 1) + r[1..] == all;
        UnblockedRecord(r[1..], rest, cbs, pending + 1);
        RestSpace(all, pending);
      } else {
        UnblockedRecord(r[1..], rest, cbs, 0);
        assert Spaces(0) + r[1..] == r[1..];
        assert Spaces(pending) + [r[0]] + r[1..] == all;
        RestOther(pending, r[0], r[1..]);
        Associate(Spaces(pending) + [r[0]], Rest(r[1..], 0) + [NL], Unblocked(rest, cbs, 0, 0));
        Associate(Spaces(pending) + [r[0]], Rest(r[1..], 0), [NL]);
      }
    }
  }

  lemma {:induction false} Associate(a: seq<byte>, b: seq<byte>, c: seq<byte>)
    ensures a + (b + c) == a + b + c
  {
  }

  /** Each record becomes one line, without its trailing spaces. */
  lemma {:induction false} UnblockedRecords(rs: seq<seq<byte>>, cbs: nat)
    requires cbs > 0 && forall i :: 0 <= i < |rs| ==> |rs[i]| == cbs
    ensures Unblocked(Records(rs), cbs, 0, 0) == Text(AllTrimmed(rs))
  {
    if rs != [] {
      UnblockedRecord(rs[0], Records(rs[1..]), cbs, 0);
      assert Spaces(0) + rs[0] == rs[0];
      UnblockedRecords(rs[1..], cbs);
    }
  }

  // ----- the round trips

  lemma {:induction false} FixedTrims(l: seq<byte>, cbs: nat)
    ensures Trimmed(Fixed(l, cbs)) == Trimmed(Cut(l, cbs))
  {
    var t := Trimmed(Cut(l, cbs));
    TrimmedUnique(Fixed(l, cbs), t);
  }

  lemma {:induction false} AllFixedTrim(lines: seq<seq<byte>>, cbs: nat)
    ensures AllTrimmed(AllFixed(lines, cbs)) == AllTrimmed(AllCut(lines, cbs))
    ensures forall i :: 0 <= i < |lines| ==> |AllFixed(lines, cbs)[i]| == cbs
  {
    if lines != [] {
      FixedTrims(lines[0], cbs);
      AllFixedTrim(lines[1..], cbs);
    }
  }

  /** `unblock` after `block`: each line comes back, cut to the record and without its trailing spaces. */
  lemma {:induction false} BlockThenUnblock(lines: seq<seq<byte>>, cbs: nat)
    requires AllLines(lines) && cbs > 0
    ensures Unblocked(Blocked(Text(lines), cbs, 0), cbs, 0, 0) == Text(AllTrimmed(AllCut(lines, cbs)))
  {
    BlockedLines(lines, cbs);
    AllFixedTrim(lines, cbs);
    UnblockedRecords(AllFixed(lines, cbs), cbs);
  }

  lemma {:induction false} TrimmedFixes(r: seq<byte>, cbs: nat)
    requires |r| == cbs
    ensures Fixed(Trimmed(r), cbs) == r
  {
  }

  lemma {:induction false} AllTrimmedFix(rs: seq<seq<byte>>, cbs: nat)
    requires AllLines(rs) && forall i :: 0 <= i < |rs| ==> |rs[i]| == cbs
    ensures AllLines(AllTrimmed(rs)) && AllFixed(AllTrimmed(rs), cbs) == rs && TooLong(AllTrimmed(rs), cbs) == 0
  {
    if rs != [] {
      TrimmedFixes(rs[0], cbs);
      AllTrimmedFix(rs[1..], cbs);
    }
  }

  /** `block` after `unblock`: records without newlines come back as they were, and nothing is truncated. */
  lemma {:induction false} UnblockThenBlock(rs: seq<seq<byte>>, cbs: nat)
    requires AllLines(rs) && cbs > 0 && forall i :: 0 <= i < |rs| ==> |rs[i]| == cbs
    ensures Blocked(Unblocked(Records(rs), cbs, 0, 0), cbs, 0) == Records(rs)
    ensures Truncated(Unblocked(Records(rs), cbs, 0, 0), cbs, 0) == 0
  {
    UnblockedRecords(rs, cbs);
    AllTrimmedFix(rs, cbs);
    BlockedLines(AllTrimmed(rs), cbs);
  }

  // ----- the output buffer

  class Output {
    const obs: nat
    const obuf: array<byte>
    var obc: nat
    var op: nat
    var written: seq<seq<byte>>   // what has been given to write()
    var nofr: nat
    var nopr: nat

    /** Everything written so far has been in records of the full size. */
    ghost predicate Valid()
      reads this, obuf
    {
      && obs > 0 && obuf.Length == obs && op == obc < obs
      && (forall i :: 0 <= i < |written| ==> |written[i]| == obs)
      && nofr == |written| && nopr == 0
    }

    /** The bytes put out so far. */
    ghost function Stream(): seq<byte>
      reads this, obuf
      requires obc <= obuf.Length
    {
      Records(written) + obuf[..obc]
    }

    constructor (size: nat)
      requires size > 0
      ensures Valid() && Stream() == [] && fresh(obuf) && obs == size
    {
      obs := size;
      obuf := new byte[size];
      obc, op, nofr, nopr, written := 0, 0, 0, 0, [];
    }

    /** `flsh` */
    method Flsh()
      requires obc <= obuf.Length && obuf.Length == obs
      modifies this`obc, this`written, this`nofr, this`nopr
      ensures obc == 0
      ensures written == old(written) + if old(obc) == 0 then [] else [old(obuf[..obc])]
      ensures nofr == old(nofr) + (if 0 < old(obc) == obs then 1 else 0)
      ensures nopr == old(nopr) + (if 0 < old(obc) < obs then 1 else 0)
    {
      if obc != 0 {
        if obc == obs {
          nofr := nofr + 1;
        } else {
          nopr := nopr + 1;
        }
        written := written + [obuf[..obc]];
        obc := 0;
      }
    }

    /** `null` */
    method Null(c: byte)
      requires Valid()
      modifies this, obuf
      ensures Valid() && Stream() == old(Stream()) + [c]
    {
      ghost var was, before := written, obuf[..obc];
      obuf[op] := c;
      op := op + 1;
      obc := obc + 1;
      assert obuf[..obc] == before + [c];
      if obc >= obs {
        Flsh();
        op := 0;
        RecordsMore(was, before + [c]);
      }
    }

    /** The end of the input: what is left goes out as a last, shorter record. */
    method Finish()
      requires Valid()
      modifies this`obc, this`written, this`nofr, this`nopr
      ensures Records(written) == old(Stream())
      ensures nofr == (if written != [] && |written[|written| - 1]| < obs then |written| - 1 else |written|)
      ensures nopr == |written| - nofr
      ensures forall i :: 0 <= i < |written| - 1 ==> |written[i]| == obs
      ensures written != [] ==> 0 < |written[|written| - 1]| <= obs
    {
      ghost var was := written;
      RecordsMore(was, obuf[..obc]);
      assert was + [] == was && Records(was) + [] == Records(was);
      Flsh();
    }
  }

  lemma {:induction false} RecordsMore(rs: seq<seq<byte>>, r: seq<byte>)
    ensures Records(rs + [r]) == Records(rs) + r
  {
    if rs == [] {
      assert rs + [r] == [r] && [r][1..] == [];
    } else {
      RecordsMore(rs[1..], r);
      assert (rs + [r])[1..] == rs[1..] + [r];
    }
  }

  // ----- block and unblock

  class Converter {
    const out: Output
    const cbs: nat
    var cbc: nat
    var nspace: nat
    var ntrunc: nat

    constructor (o: Output, size: nat)
      ensures out == o && cbs == size && cbc == 0 && nspace == 0 && ntrunc == 0
    {
      out, cbs, cbc, nspace, ntrunc := o, size, 0, 0, 0;
    }

    method PutSpaces(n: nat)
      requires out.Valid()
      modifies out, out.obuf
      ensures out.Valid() && out.Stream() == old(out.Stream()) + Spaces(n)
    {
      var k := 0;
      while k < n
        invariant 0 <= k <= n && out.Valid() && out.Stream() == old(out.Stream()) + Spaces(k)
      {
        out.Null(SPACE);
        k := k + 1;
        assert Spaces(k) == Spaces(k - 1) + [SPACE];
      }
    }

    /** `block` on one character; with a record size of 0 it passes through. */
    method Block(c: byte)
      requires out.Valid()
      modifies this`cbc, this`ntrunc, out, out.obuf
      ensures out.Valid()
      ensures cbs == 0 ==> out.Stream() == old(out.Stream()) + [c] && cbc == old(cbc) && ntrunc == old(ntrunc)
      ensures cbs > 0 ==> out.Stream() == old(out.Stream()) + Blocked([c], cbs, old(cbc))
      ensures cbs > 0 ==> cbc == Column([c], old(cbc)) && ntrunc == old(ntrunc) + Truncated([c], cbs, old(cbc))
    {
      if cbs == 0 {
        out.Null(c);
        return;
      }
      if c == NL {
        if cbc < cbs {
          PutSpaces(cbs - cbc);
        }
        cbc := 0;
        return;
      }
      if cbc == cbs {
        ntrunc := ntrunc + 1;
      }
      cbc := cbc + 1;
      if cbc <= cbs {
        out.Null(c);
      }
    }

    /** `unblock` on one character; with a record size of 0 it passes through. */
    method Unblock(c: byte)
      requires out.Valid() && (cbs > 0 ==> cbc < cbs)
      modifies this`cbc, this`nspace, out, out.obuf
      ensures out.Valid()
      ensures cbs == 0 ==> out.Stream() == old(out.Stream()) + [c] && cbc == old(cbc) && nspace == old(nspace)
      ensures cbs > 0 ==> out.Stream() == old(out.Stream()) + PutFor(c, cbs, old(cbc), old(nspace))
      ensures cbs > 0 ==> cbc == NextColumn(cbs, old(cbc)) && nspace == NextPending(c, cbs, old(cbc), old(nspace))
    {
      hide Records, Spaces, Unblocked, Output.Stream;
      if cbs == 0 {
        out.Null(c);
        return;
      }
      if c == SPACE {
        nspace := nspace + 1;
      } else {
        PutSpaces(nspace);
        nspace := 0;
        out.Null(c);
      }
      cbc := cbc + 1;
      if cbc >= cbs {
        out.Null(NL);
        cbc := 0;
        nspace := 0;
      }
    }
  }

  // ----- the main loop

  lemma {:induction false} BlockedMore(s: seq<byte>, c: byte, cbs: nat, cbc: nat)
    ensures Blocked(s + [c], cbs, cbc) == Blocked(s, cbs, cbc) + Blocked([c], cbs, Column(s, cbc))
    ensures Column(s + [c], cbc) == Column([c], Column(s, cbc))
    ensures Truncated(s + [c], cbs, cbc) == Truncated(s, cbs, cbc) + Truncated([c], cbs, Column(s, cbc))
  {
    if s == [] {
      assert s + [c] == [c];
    } else {
      assert (s + [c])[1..] == s[1..] + [c];
      BlockedMore(s[1..], c, cbs, if s[0] == NL then 0 else cbc + 1);
    }
  }

  lemma NothingBlocked(cbs: nat)
    ensures Blocked([], cbs, 0) == [] && Column([], 0) == 0 && Truncated([], cbs, 0) == 0
  {
  }

  /** dd with `conv=block`, on an input read to its end. */
  method RunBlock(input: seq<byte>, cbs: nat, obs: nat) returns (records: seq<seq<byte>>, ntrunc: nat)
    requires obs > 0
    ensures Records(records) == if cbs == 0 then input else Blocked(input, cbs, 0)
    ensures ntrunc == if cbs == 0 then 0 else Truncated(input, cbs, 0)
    ensures forall i :: 0 <= i < |records| - 1 ==> |records[i]| == obs
    ensures records != [] ==> 0 < |records[|records| - 1]| <= obs
  {
    hide Blocked, Column, Truncated, Records;
    var out := new Output(obs);
    var conv := new Converter(out, cbs);
    NothingBlocked(cbs);
    var i := 0;
    while i < |input|
      invariant 0 <= i <= |input| && out.Valid()
      invariant cbs == 0 ==> out.Stream() == input[..i] && conv.cbc == 0 == conv.ntrunc
      invariant cbs > 0 ==> out.Stream() == Blocked(input[..i], cbs, 0)
      invariant cbs > 0 ==> conv.cbc == Column(input[..i], 0) && conv.ntrunc == Truncated(input[..i], cbs, 0)
      invariant fresh(out) && fresh(out.obuf) && fresh(conv)
    {
      BlockedMore(input[..i], input[i], cbs, 0);
      assert input[..i + 1] == input[..i] + [input[i]];
      conv.Block(input[i]);
      i := i + 1;
    }
    assert input[..i] == input;
    out.Finish();
    records, ntrunc := out.written, conv.ntrunc;
  }

  /** The spaces held back after s. */
  function Pending(s: seq<byte>, cbs: nat, cbc: nat, pending: nat): nat
    requires cbc < cbs
  {
    if s == [] then pending
    else Pending(s[1..], cbs, NextColumn(cbs, cbc), NextPending(s[0], cbs, cbc, pending))
  }

  /** The column after n characters. */
  function After(cbs: nat, cbc: nat, n: nat): (r: nat)
    requires cbc < cbs
    ensures r < cbs
    decreases n
  {
    if n == 0 then cbc else After(cbs, NextColumn(cbs, cbc), n - 1)
  }

  lemma {:induction false} UnblockedMore(s: seq<byte>, c: byte, cbs: nat, cbc: nat, pending: nat)
    requires cbc < cbs
    ensures var at, held := After(cbs, cbc, |s|), Pending(s, cbs, cbc, pending);
      && Unblocked(s + [c], cbs, cbc, pending) == Unblocked(s, cbs, cbc, pending) + PutFor(c, cbs, at, held)
      && After(cbs, cbc, |s| + 1) == NextColumn(cbs, at)
      && Pending(s + [c], cbs, cbc, pending) == NextPending(c, cbs, at, held)
  {
    hide PutFor, NextColumn, NextPending;
    if s == [] {
      assert s + [c] == [c] && [c][1..] == [];
    } else {
      assert (s + [c])[1..] == s[1..] + [c];
      var next, held := NextColumn(cbs, cbc), NextPending(s[0], cbs, cbc, pending);
      UnblockedMore(s[1..], c, cbs, next, held);
      Associate(PutFor(s[0], cbs, cbc, pending), Unblocked(s[1..], cbs, next, held),
                PutFor(c, cbs, After(cbs, cbc, |s|), Pending(s, cbs, cbc, pending)));
    }
  }

  /** dd with `conv=unblock`. */
  method RunUnblock(input: seq<byte>, cbs: nat, obs: nat) returns (records: seq<seq<byte>>)
    requires obs > 0
    ensures Records(records) == if cbs == 0 then input else Unblocked(input, cbs, 0, 0)
    ensures forall i :: 0 <= i < |records| - 1 ==> |records[i]| == obs
    ensures records != [] ==> 0 < |records[|records| - 1]| <= obs
  {
    var out := new Output(obs);
    var conv := new Converter(out, cbs);
    var i := 0;
    while i < |input|
      invariant 0 <= i <= |input| && out.Valid()
      invariant cbs == 0 ==> out.Stream() == input[..i] && conv.cbc == 0 == conv.nspace
      invariant cbs > 0 ==> out.Stream() == Unblocked(input[..i], cbs, 0, 0)
      invariant cbs > 0 ==> conv.cbc == After(cbs, 0, i) && conv.nspace == Pending(input[..i], cbs, 0, 0)
      invariant fresh(out) && fresh(out.obuf) && fresh(conv)
    {
      if cbs > 0 {
        UnblockedMore(input[..i], input[i], cbs, 0, 0);
      }
      assert input[..i + 1] == input[..i] + [input[i]];
      conv.Unblock(input[i]);
      i := i + 1;
    }
    assert input[..i] == input;
    out.Finish();
    records := out.written;
  }
}
