/**
 * The temporary file of bin/ed.c: `putline` appends the text of a line and answers with a
 * handle, `getline` brings the text of a handle back, both through `getblock`, which keeps
 * one block for reading and one for writing.
 */
module LineStore {
  import opened Numbers

  type byte = x: int | 0 <= x < 256

  const BLOCK: nat := 512
  const LBSIZE: nat := 512
  const LIMIT: nat := 255      // blocks in the file
  const NL: byte := 10

  // ----- handles

  /** The block of a handle: `(atl>>8)&0377`. */
  function Bno(atl: nat): nat {
    atl / 256 % 256
  }

  /** The byte in the block: `(atl<<1)&0774`. */
  function Off(atl: nat): nat {
    atl * 2 % 512 / 4 * 4
  }

  /** The handle increment for `len` bytes: `((len+03)>>1)&077776`. */
  function Units(len: nat): nat {
    (len + 3) / 2 / 2 * 2 % 0x8000
  }

  /** The address in the file that a handle stands for. */
  function Place(atl: nat): nat {
    atl / 2 * 4
  }

  /** Block and offset make up the address, and the low bit, which marks lines, plays no part. */
  lemma HandlePlace(atl: nat)
    requires atl < 0x1_0000
    ensures Place(atl) == BLOCK * Bno(atl) + Off(atl) && Off(atl) < BLOCK
    ensures Place(atl / 2 * 2) == Place(atl) && (atl % 2 == 0 ==> Place(atl) == 2 * atl && Place(atl + 1) == Place(atl))
  {
    var b, r := atl / 256, atl % 256;
    DivModUnique(atl * 2, 512, b, 2 * r);
    DivModUnique(2 * r, 4, r / 2, 2 * (r % 2));
    DivModUnique(atl, 2, 128 * b + r / 2, r % 2);
    DivModUnique(atl / 2 * 2, 2, atl / 2, 0);
    if atl % 2 == 0 {
      DivModUnique(atl + 1, 2, atl / 2, 1);
    }
  }

  /** Consecutive handles leave room for the bytes stored, and stay even. */
  lemma UnitsSuffice(len: nat)
    requires len <= LBSIZE
    ensures len <= 2 * Units(len) < len + 4 && Units(len) % 2 == 0
  {
  }

  // ----- text

  /** What is stored of a buffer: everything before the first newline or NUL. */
  function Text(s: seq<byte>): (t: seq<byte>)
    ensures |t| <= |s| && t == s[..|t|]
    ensures forall i :: 0 <= i < |t| ==> t[i] != 0 && t[i] != NL
    ensures |t| < |s| ==> s[|t|] == 0 || s[|t|] == NL
  {
    if s == [] || s[0] == 0 || s[0] == NL then [] else [s[0]] + Text(s[1..])
  }

  lemma {:induction false} TextEnds(s: seq<byte>, n: nat)
    requires n < |s| && (s[n] == 0 || s[n] == NL)
    requires forall i :: 0 <= i < n ==> s[i] != 0 && s[i] != NL
    ensures Text(s) == s[..n]
  {
    if n > 0 {
      TextEnds(s[1..], n - 1);
    }
  }

  // ----- the store

  /** A line of that text, at that handle, ends before `tline`. */
  predicate LineOk(h: nat, t: seq<byte>, tline: nat) {
    && h % 2 == 0 && 2 <= h && |t| < LBSIZE && 2 * h + |t| + 1 <= 2 * tline
    && (forall i :: 0 <= i < |t| ==> t[i] != 0 && t[i] != NL)
  }

  /** The line at h ends before the line at k begins. */
  predicate Before(lines: map<nat, seq<byte>>, h: nat, k: nat)
    requires h in lines
  {
    2 * h + |lines[h]| + 1 <= 2 * k
  }

  ghost predicate LinesOk(lines: map<nat, seq<byte>>, tline: nat) {
    && (forall h :: h in lines ==> LineOk(h, lines[h], tline))
    && (forall h, k :: h in lines && k in lines && h < k ==> Before(lines, h, k))
  }

  lemma LineAdded(lines: map<nat, seq<byte>>, tline: nat, t: seq<byte>, next: nat)
    requires LinesOk(lines, tline) && tline <= next && LineOk(tline, t, next)
    ensures tline !in lines && LinesOk(lines[tline := t], next)
  {
    var now := lines[tline := t];
    forall h | h in lines
      ensures h != tline
    {
      assert LineOk(h, lines[h], tline);
    }
    forall h | h in now
      ensures LineOk(h, now[h], next)
    {
      assert h in lines ==> LineOk(h, lines[h], tline);
    }
    forall h, k | h in now && k in now && h < k
      ensures Before(now, h, k)
    {
      assert h in lines ==> LineOk(h, lines[h], tline);
      assert k in lines ==> LineOk(k, lines[k], tline);
      assert h in lines && k in lines ==> Before(lines, h, k);
    }
  }

  class Store {
    const ibuff: array<byte>
    const obuff: array<byte>
    const linebuf: array<byte>
    var iblock: int
    var oblock: int
    var ichanged: bool
    var tline: nat
    var file: map<int, seq<byte>>
    var linebp: nat                         // where the next line starts in linebuf, after a newline
    ghost var lines: map<nat, seq<byte>>    // the text of every handle handed out

    ghost predicate Shape()
    {
      && ibuff.Length == BLOCK == obuff.Length && linebuf.Length == LBSIZE
      && ibuff != obuff && ibuff != linebuf && obuff != linebuf
    }

    /** What a block holds: in a buffer, or in the file. */
    ghost function Block(b: int): seq<byte>
      reads this`iblock, this`oblock, this`file, ibuff, obuff
    {
      if b < 0 then []
      else if b == iblock then ibuff[..]
      else if b == oblock then obuff[..]
      else if b in file then file[b]
      else []
    }

    /** The two buffers hold different blocks, and a read block that has not changed is as in the file. */
    ghost predicate CacheOk()
      reads this`iblock, this`oblock, this`ichanged, this`file, ibuff, obuff
    {
      && Shape()
      && -1 <= iblock && -1 <= oblock
      && (iblock == oblock ==> iblock == -1)
      && (ichanged ==> iblock >= 0)
      && (iblock >= 0 && !ichanged ==> iblock in file && file[iblock] == ibuff[..])
      && forall b :: b in file ==> |file[b]| == BLOCK
    }

    /** Only the write buffer ever changes; it holds the last block, to which lines are still added. */
    ghost predicate InOrder()
      reads this, ibuff, obuff
    {
      && CacheOk()
      && !ichanged
      && (iblock < oblock || iblock == -1)
      && (forall b :: 0 <= b < oblock ==> b in file)
      && 2 <= tline <= LIMIT * 256 && tline % 2 == 0
      && (oblock == tline / 256 || (oblock == tline / 256 - 1 && (tline % 256 == 0 || tline == 2)))
    }

    /** The byte at an address of the file. */
    ghost function Mem(a: nat): int
      reads this`iblock, this`oblock, this`file, ibuff, obuff
    {
      if a % BLOCK < |Block(a / BLOCK)| then Block(a / BLOCK)[a % BLOCK] else -1
    }

    /** The text at an address and the NUL after it. */
    ghost predicate HeldAt(start: nat, t: seq<byte>)
      reads this`iblock, this`oblock, this`file, ibuff, obuff
    {
      && (forall i :: 0 <= i < |t| ==> Mem(start + i) == t[i])
      && Mem(start + |t|) == 0
    }

    ghost predicate AllHeld()
      reads this`iblock, this`oblock, this`file, this`lines, ibuff, obuff
    {
      forall h :: h in lines ==> HeldAt(2 * h, lines[h])
    }

    /** Every handle reads back the text it was given out for, and no two lines share a byte. */
    ghost predicate Valid()
      reads this, ibuff, obuff
    {
      InOrder() && LinesOk(lines, tline) && AllHeld()
    }

    /** `init`. */
    constructor ()
      ensures Valid() && lines == map[] && tline == 2
      ensures fresh(ibuff) && fresh(obuff) && fresh(linebuf)
    {
      ibuff := new byte[BLOCK];
      obuff := new byte[BLOCK];
      linebuf := new byte[LBSIZE];
      iblock, oblock, ichanged, tline := -1, -1, false, 2;
      file, lines, linebp := map[], map[], 0;
    }

    /** `blkio` reading: fails where the file has no such block. */
    method ReadBlock(b: int) returns (ok: bool)
      requires Shape() && forall k :: k in file ==> |file[k]| == BLOCK
      modifies ibuff
      ensures ok == (b in file)
      ensures ok ==> ibuff[..] == file[b]
      ensures !ok ==> ibuff[..] == old(ibuff[..])
    {
      ok := b in file;
      if ok {
        var from := file[b];
        for i := 0 to BLOCK
          invariant ibuff[..i] == from[..i]
        {
          ibuff[i] := from[i];
        }
      }
    }

    /**
     * `getblock`: the buffer that holds a block. Reading changes no block. Asking for a block to
     * write to keeps every other block, and that one too if it is in a buffer; otherwise the
     * block is not loaded, and the buffer still holds the one before.
     */
    method GetBlock(atl: nat, write: bool) returns (ok: bool, buf: array<byte>, off: nat)
      requires CacheOk()
      modifies this`iblock, this`oblock, this`ichanged, this`file, ibuff
      ensures ok ==
        (Bno(atl) < LIMIT && (write || Bno(atl) == old(iblock) || Bno(atl) == old(oblock) || Bno(atl) in old(file)))
      ensures Bno(atl) >= LIMIT ==>
        unchanged(this, ibuff)
      ensures ok ==> CacheOk() && off == Off(atl)
      ensures ok ==> buf == if Bno(atl) == iblock then ibuff else obuff
      ensures ok ==> Bno(atl) == iblock || Bno(atl) == oblock
      ensures ok ==> forall b: int :: b != Bno(atl) || !write || b == old(iblock) || b == old(oblock) ==>
        Block(b) == old(Block(b))
      ensures ok && !write ==> oblock == old(oblock) && (old(ichanged) || ichanged == old(ichanged))
      ensures ok && !write ==> file.Keys <= old(file.Keys) + {old(iblock)} && old(file.Keys) <= file.Keys
      ensures ok && !write ==> iblock == old(iblock) || iblock == Bno(atl)
      ensures ok && write ==> iblock == old(iblock)
      ensures ok && write && Bno(atl) != old(iblock) ==> oblock == Bno(atl) && ichanged == old(ichanged)
      ensures ok && write && Bno(atl) != old(iblock) ==> old(file.Keys) <= file.Keys
      ensures ok && write && Bno(atl) != old(iblock) && Bno(atl) != old(oblock) && old(oblock) >= 0 ==>
        old(oblock) in file
    {
      var bno := Bno(atl);
      off := Off(atl);
      buf := obuff;
      if bno >= LIMIT {
        return false, obuff, off;
      }
      if bno == iblock {
        ichanged := ichanged || write;
        return true, ibuff, off;
      }
      if bno == oblock {
        return true, obuff, off;
      }
      if !write {
        if ichanged {
          file := file[iblock := ibuff[..]];
        }
        ichanged := false;
        iblock := bno;
        ok := ReadBlock(bno);
        return ok, ibuff, off;
      }
      if oblock >= 0 {
        file := file[oblock := obuff[..]];
      }
      oblock := bno;
      return true, obuff, off;
    }

    /** Only the block in the write buffer is still being filled. */
    ghost predicate Writing()
      reads this`iblock, this`oblock, this`ichanged, this`file, ibuff, obuff
    {
      && CacheOk() && !ichanged
      && (iblock < oblock || iblock == -1)
      && (forall b :: 0 <= b < oblock ==> b in file)
    }

    /** `*bp = c`. */
    method PutByte(buf: array<byte>, bp: nat, c: byte)
      requires Writing() && oblock >= 0 && buf == obuff && bp < BLOCK
      modifies obuff
      ensures Writing() && Mem(BLOCK * oblock + bp) == c && obuff[bp] == c
      ensures forall x: nat :: x != BLOCK * oblock + bp ==> Mem(x) == old(Mem(x))
    {
      buf[bp] := c;
    }

    /** The first k bytes of the line t that starts at `start` have been written. */
    ghost predicate Written(start: nat, t: seq<byte>, k: nat)
      requires k <= |t|
      reads this`iblock, this`oblock, this`file, ibuff, obuff
    {
      forall i :: 0 <= i < k ==> Mem(start + i) == t[i]
    }

    /**
     * Have block q in the write buffer, if that is within the limit, to go on with the line t
     * that starts at `start` and of which k bytes have been written.
     */
    method StartWriting(tl: nat, ghost q: nat, ghost start: nat, ghost t: seq<byte>, ghost k: nat)
      returns (ok: bool, buf: array<byte>, bp: nat)
      requires Bno(tl) == q && Writing() && k <= |t| && Written(start, t, k)
      requires oblock == q ||
        (oblock == q - 1 && (start <= BLOCK * q || start == 4) && (k == 0 || start + k <= BLOCK * q))
      modifies this`iblock, this`oblock, this`ichanged, this`file, ibuff
      ensures ok <==> q < LIMIT
      ensures ok ==> oblock == q && buf == obuff && bp == Off(tl)
      ensures !ok ==> unchanged(this, ibuff)
      ensures Writing() && Written(start, t, k)
      ensures forall x: nat :: 4 <= x < start ==> Mem(x) == old(Mem(x))
    {
      ok, buf, bp := GetBlock(tl, true);
    }

    /** One character of the line that starts at `start`; a newline is stored, and then replaced by a NUL. */
    method PutChar(buf: array<byte>, bp: nat, lp: nat, ghost start: nat, ghost t: seq<byte>) returns (done: bool)
      requires t == Text(linebuf[..]) && lp <= |t| < LBSIZE
      requires Writing() && oblock >= 0 && buf == obuff && bp < BLOCK && start + lp == BLOCK * oblock + bp
      requires Written(start, t, lp)
      modifies this`linebp, obuff
      ensures Writing() && (done <==> lp == |t|)
      ensures !done ==> Written(start, t, lp + 1)
      ensures done ==> HeldAt(start, t)
      ensures forall x: nat :: x < start ==> Mem(x) == old(Mem(x))
      ensures linebp == if done && linebuf[lp] == NL then lp + 1 else old(linebp)
    {
      hide Mem, Block, Text;
      PutByte(buf, bp, linebuf[lp]);
      if buf[bp] == 0 {
        return true;
      }
      if buf[bp] == NL {
        PutByte(buf, bp, 0);
        linebp := lp + 1;
        return true;
      }
      done := false;
    }

    /** Where the next line goes, in terms of blocks. */
    lemma StartOfLine()
      requires InOrder()
      ensures Writing() && 2 * tline == BLOCK * Bno(tline) + Off(tline) && Off(tline) < BLOCK
      ensures tline / 256 * 256 == 256 * Bno(tline)
      ensures oblock == Bno(tline) || (oblock == Bno(tline) - 1 && (2 * tline <= BLOCK * Bno(tline) || tline == 2))
    {
      HandlePlace(tline);
    }

    /** A line that runs into the limit has started in the last block. */
    lemma StillInOrder(lp: nat)
      requires Writing() && oblock == LIMIT - 1 && 2 <= tline && tline % 2 == 0
      requires 2 * tline + lp == BLOCK * LIMIT && 0 < lp < LBSIZE
      ensures InOrder()
    {
    }

    ghost predicate Storing(start: nat, t: seq<byte>, k: nat, tl: nat, bp: nat)
      reads this`iblock, this`oblock, this`ichanged, this`file, ibuff, obuff
    {
      && k <= |t| && Writing() && Written(start, t, k)
      && start + k == BLOCK * oblock + bp && bp < BLOCK
      && tl == 256 * oblock && 0 <= oblock < LIMIT
    }

    /** Where the byte after the first k goes: on to the next block when `nl` has come down to 0. */
    method NextByte(tl0: nat, buf0: array<byte>, bp0: nat, ghost start: nat, ghost t: seq<byte>, ghost k: nat)
      returns (ok: bool, tl: nat, buf: array<byte>, bp: nat)
      requires k <= |t| && Writing() && Written(start, t, k) && buf0 == obuff
      requires start + k == BLOCK * oblock + bp0 && 0 < bp0 <= BLOCK && start < BLOCK * (oblock + 1)
      requires tl0 == 256 * oblock && 0 <= oblock < LIMIT
      modifies this`iblock, this`oblock, this`ichanged, this`file, ibuff
      ensures ok ==> Storing(start, t, k, tl, bp) && buf == obuff
      ensures !ok ==> Writing() && oblock == LIMIT - 1 && start + k == BLOCK * LIMIT
      ensures forall x: nat :: 4 <= x < start ==> Mem(x) == old(Mem(x))
    {
      hide Mem, Block, Bno, Off, CacheOk, Writing, Written;
      ok, tl, buf, bp := true, tl0, buf0, bp0;
      var nl := BLOCK - bp;
      if nl == 0 {
        tl := tl + 256;
        BlockHandle(oblock + 1);
        ok, buf, bp := StartWriting(tl, oblock + 1, start, t, k);
      }
    }

    /** The loop of `putline`. */
    method StoreText(ghost t: seq<byte>) returns (ok: bool, lp: nat)
      requires InOrder() && t == Text(linebuf[..]) && |t| < LBSIZE
      modifies this`iblock, this`oblock, this`ichanged, this`file, this`linebp, ibuff, obuff
      ensures ok <==> 2 * tline + |t| < BLOCK * LIMIT
      ensures ok ==> lp == |t| + 1 && Writing() && HeldAt(2 * tline, t)
      ensures ok ==> BLOCK * oblock <= 2 * tline + |t| < BLOCK * (oblock + 1)
      ensures !ok ==> InOrder()
      ensures forall x: nat :: 4 <= x < 2 * tline ==> Mem(x) == old(Mem(x))
      ensures linebp == if ok && linebuf[|t|] == NL then |t| + 1 else old(linebp)
    {
      lp := 0;
      var tl := tline;
      ghost var start := 2 * tline;
      assert tline >= 2 && tline % 2 == 0;
      StartOfLine();
      assert Shape() && Written(start, t, 0);
      hide Mem, Block, Bno, Off, Text, InOrder, CacheOk, Writing, Written, HeldAt;
      var buf, bp;
      ok, buf, bp := StartWriting(tl, Bno(tl), start, t, 0);
      if !ok {
        return;
      }
      tl := tl / 256 * 256;
      while true
        invariant Storing(start, t, lp, tl, bp) && buf == obuff
        invariant forall x: nat :: 4 <= x < start ==> Mem(x) == old(Mem(x))
        invariant linebp == old(linebp)
        decreases |t| - lp
      {
        var done := PutChar(buf, bp, lp, start, t);
        lp := lp + 1;
        if done {
          break;
        }
        ok, tl, buf, bp := NextByte(tl, buf, bp + 1, start, t, lp);
        if !ok {
          StillInOrder(lp);
          return;
        }
      }
    }

    /** `putline`. Only when the limit is reached does it fail, and then no line is lost. */
    method PutLine() returns (ok: bool, h: nat)
      requires Valid() && |Text(linebuf[..])| < LBSIZE
      modifies this, ibuff, obuff
      ensures Valid()
      ensures ok <==> 2 * old(tline) + |Text(linebuf[..])| < BLOCK * LIMIT
      ensures ok ==> h == old(tline) && h !in old(lines) && lines == old(lines)[h := Text(linebuf[..])]
      ensures !ok ==> lines == old(lines) && tline == old(tline)
      ensures linebp ==
        if ok && linebuf[|Text(linebuf[..])|] == NL then |Text(linebuf[..])| + 1 else old(linebp)
    {
      assert Shape();
      ghost var t := Text(linebuf[..]);
      hide Mem, Block, Text, Units, CacheOk, HeldAt, LinesOk;
      h := 0;
      var lp;
      ok, lp := StoreText(t);
      AllStillHeld();
      if ok {
        h := NewHandle(lp, t);
      }
    }

    /** The end of `putline`: the handle of the line just stored, and the place for the next one. */
    method NewHandle(lp: nat, ghost t: seq<byte>) returns (h: nat)
      requires Writing() && BLOCK * oblock <= 2 * tline + |t| < BLOCK * (oblock + 1) && 0 <= oblock < LIMIT
      requires tline >= 2 && tline % 2 == 0 && |t| < LBSIZE && lp == |t| + 1
      requires forall i :: 0 <= i < |t| ==> t[i] != 0 && t[i] != NL
      requires LinesOk(lines, tline) && AllHeld() && HeldAt(2 * tline, t)
      modifies this`tline, this`lines
      ensures Valid() && h == old(tline) && h !in old(lines) && lines == old(lines)[h := t]
    {
      hide Units, CacheOk, HeldAt, LinesOk;
      NextLine(tline, |t|, oblock);
      LineAdded(lines, tline, t, tline + Units(lp));
      h := tline;
      tline := tline + Units(lp);
      lines := lines[h := t];
    }

    /** Lines below `tline` are held as long as the memory there does not change. */
    twostate lemma AllStillHeld()
      requires old(AllHeld()) && lines == old(lines) && LinesOk(lines, old(tline))
      requires forall x: nat :: 4 <= x < 2 * old(tline) ==> Mem(x) == old(Mem(x))
      ensures AllHeld()
    {
      forall h | h in lines
        ensures HeldAt(2 * h, lines[h])
      {
        StillHeld(h);
      }
    }

    twostate lemma StillHeld(h: nat)
      requires h in lines && lines == old(lines) && LineOk(h, lines[h], old(tline)) && old(HeldAt(2 * h, lines[h]))
      requires forall x: nat :: 4 <= x < 2 * old(tline) ==> Mem(x) == old(Mem(x))
      ensures HeldAt(2 * h, lines[h])
    {
      hide Mem;
    }

    /** The buffer that holds block q, which some line has reached. */
    method StartReading(tl: nat, ghost q: nat, ghost start: nat, ghost t: seq<byte>) returns (buf: array<byte>, bp: nat)
      requires InOrder() && Bno(tl) == q <= oblock && q < LIMIT && HeldAt(start, t) && AllHeld()
      modifies this`iblock, this`oblock, this`ichanged, this`file, ibuff
      ensures InOrder() && HeldAt(start, t) && AllHeld() && oblock == old(oblock) && bp == Off(tl)
      ensures (buf == ibuff || buf == obuff) && buf[..] == Block(q) && buf.Length == BLOCK
    {
      var ok;
      ok, buf, bp := GetBlock(tl, false);
      assert forall x: nat :: Mem(x) == old(Mem(x));
      hide Mem;
      assert forall h :: h in lines ==> old(HeldAt(2 * h, lines[h]));
    }

    /** Copying the line t from `start` has come to byte k, which is at `bp` in the buffer. */
    ghost predicate Copying(start: nat, t: seq<byte>, k: nat, buf: array<byte>, bp: nat, q: nat)
      reads this, ibuff, obuff, linebuf
    {
      && InOrder() && AllHeld() && k <= |t| < LBSIZE && HeldAt(start, t)
      && 0 <= q <= oblock && q < LIMIT && start + k == BLOCK * q + bp && bp <= BLOCK
      && (buf == ibuff || buf == obuff) && buf[..] == Block(q)
      && linebuf[..k] == t[..k]
    }

    /** `*lp++ = *bp++`. */
    method CopyByte(buf: array<byte>, bp: nat, lp: nat, ghost start: nat, ghost t: seq<byte>, ghost q: nat)
      requires Copying(start, t, lp, buf, bp, q) && bp < BLOCK
      modifies linebuf
      ensures lp < linebuf.Length && linebuf[lp] == if lp < |t| then t[lp] else 0
      ensures lp < |t| ==> Copying(start, t, lp + 1, buf, bp + 1, q)
      ensures InOrder() && AllHeld() && lp <= |t| && (lp == |t| ==> linebuf[..|t|] == t)
    {
      hide Mem, Block, CacheOk, HeldAt, AllHeld;
      ByteAt(buf, bp, lp, start, t, q);
      linebuf[lp] := buf[bp];
      assert lp < |t| ==> linebuf[..lp + 1] == t[..lp] + [t[lp]] == t[..lp + 1];
    }

    lemma ByteAt(buf: array<byte>, bp: nat, lp: nat, start: nat, t: seq<byte>, q: nat)
      requires Copying(start, t, lp, buf, bp, q) && bp < BLOCK
      ensures Shape() && buf.Length == BLOCK && buf != linebuf
      ensures buf[bp] == if lp < |t| then t[lp] else 0
    {
      hide AllHeld;
      assert buf[bp] == Mem(start + lp) by {
        DivModUnique(start + lp, BLOCK, q, bp);
      }
    }

    /** Where the next byte comes from: the next block, when `nl` has come down to 0. */
    method NextCopied(tl0: nat, buf0: array<byte>, bp0: nat, ghost start: nat, ghost t: seq<byte>, ghost k: nat,
                      ghost q0: nat)
      returns (tl: nat, buf: array<byte>, bp: nat, ghost q: nat)
      requires Copying(start, t, k, buf0, bp0, q0) && tl0 == 256 * q0 && 4 <= start && start + |t| < 2 * tline
      modifies this`iblock, this`oblock, this`ichanged, this`file, ibuff
      ensures Copying(start, t, k, buf, bp, q) && bp < BLOCK && tl == 256 * q
    {
      tl, buf, bp, q := tl0, buf0, bp0, q0;
      assert Shape();
      hide Mem, Block, Bno, Off, HeldAt, CacheOk, AllHeld;
      var nl := BLOCK - bp;
      if nl == 0 {
        tl, q := tl + 256, q + 1;
        BlockHandle(q);
        BlockWritten(tline, oblock, start + k);
        buf, bp := StartReading(tl, q, start, t);
      }
    }

    /** The beginning of `getline`. */
    method StartCopying(handle: nat, ghost start: nat, ghost t: seq<byte>)
      returns (tl: nat, buf: array<byte>, bp: nat, ghost q: nat)
      requires InOrder() && AllHeld() && HeldAt(start, t) && |t| < LBSIZE
      requires handle < 0x1_0000 && start == BLOCK * Bno(handle) + Off(handle) && 4 <= start && start + |t| < 2 * tline
      modifies this`iblock, this`oblock, this`ichanged, this`file, ibuff
      ensures Copying(start, t, 0, buf, bp, q) && bp < BLOCK && tl == 256 * q
    {
      q := Bno(handle);
      assert Off(handle) < BLOCK && handle / 256 * 256 == 256 * q;
      BlockWritten(tline, oblock, start);
      assert Shape() && q == start / BLOCK;
      hide Mem, Block, Bno, Off, HeldAt, CacheOk, InOrder, AllHeld;
      buf, bp := StartReading(handle, q, start, t);
      tl := handle / 256 * 256;
    }

    /** The loop of `getline`. */
    method CopyLine(handle: nat, ghost start: nat, ghost t: seq<byte>)
      requires InOrder() && AllHeld() && HeldAt(start, t) && |t| < LBSIZE
      requires forall i :: 0 <= i < |t| ==> t[i] != 0
      requires handle < 0x1_0000 && start == BLOCK * Bno(handle) + Off(handle) && 4 <= start && start + |t| < 2 * tline
      modifies this`iblock, this`oblock, this`ichanged, this`file, ibuff, linebuf
      ensures InOrder() && AllHeld() && linebuf[..|t|] == t && linebuf[|t|] == 0
    {
      hide Copying, Bno, Off, HeldAt, InOrder, AllHeld;
      var lp: nat, bp: nat := 0, 0;
      var tl, buf;
      ghost var q: nat;
      tl, buf, bp, q := StartCopying(handle, start, t);
      while true
        invariant Copying(start, t, lp, buf, bp, q) && bp < BLOCK && lp <= |t| && tl == 256 * q
        decreases |t| - lp
      {
        CopyByte(buf, bp, lp, start, t, q);
        lp := lp + 1;
        if linebuf[lp - 1] == 0 {
          break;
        }
        tl, buf, bp, q := NextCopied(tl, buf, bp + 1, start, t, lp, q);
      }
    }

    /** `getline`, for a handle that may carry a mark in its low bit: the text goes to linebuf. */
    method GetLine(handle: nat)
      requires Valid() && handle / 2 * 2 in lines
      modifies this`iblock, this`oblock, this`ichanged, this`file, ibuff, linebuf
      ensures Valid() && Text(linebuf[..]) == lines[handle / 2 * 2]
    {
      ghost var h := handle / 2 * 2;
      assert LineOk(h, lines[h], tline);
      HandlePlace(handle);
      CopyLine(handle, 2 * h, lines[h]);
      TextEnds(linebuf[..], |lines[h]|);
    }
  }

  lemma BlockWritten(tline: nat, oblock: int, a: nat)
    requires 4 <= a < 2 * tline && tline <= LIMIT * 256
    requires oblock == tline / 256 || (oblock == tline / 256 - 1 && (tline % 256 == 0 || tline == 2))
    ensures a / BLOCK <= oblock && a / BLOCK < LIMIT
  {
  }

  /** The next line starts behind the NUL of this one, in its block or at the start of the next. */
  lemma NextLine(tline: nat, n: nat, q: nat)
    requires tline % 2 == 0 && n < LBSIZE && BLOCK * q <= 2 * tline + n < BLOCK * (q + 1) && q < LIMIT
    ensures var next := tline + Units(n + 1);
      && next % 2 == 0 && 2 * tline + n < 2 * next && next <= LIMIT * 256
      && (q == next / 256 || (q == next / 256 - 1 && next % 256 == 0))
  {
    hide Units;
    UnitsSuffice(n + 1);
    var half := tline / 2 + Units(n + 1) / 2;
    assert tline + Units(n + 1) == 2 * half;
    NextBlock(half, 2 * tline + n, q);
    assert (2 * half) % 2 == 0 by {
      DivModUnique(2 * half, 2, half, 0);
    }
  }

  lemma NextBlock(half: nat, n: nat, q: nat)
    requires BLOCK * q <= n < BLOCK * (q + 1) && n < 4 * half <= n + 4
    ensures q == 2 * half / 256 || (q == 2 * half / 256 - 1 && 2 * half % 256 == 0)
    ensures 2 * half <= 256 * (q + 1)
  {
    var r := half - 128 * q;
    if r < 128 {
      DivModUnique(2 * half, 256, q, 2 * r);
    } else {
      DivModUnique(2 * half, 256, q + 1, 0);
    }
  }

  lemma BlockHandle(q: nat)
    requires q < 256
    ensures Bno(256 * q) == q && Off(256 * q) == 0
  {
  }
}
