/**
 * Regular expressions of bin/grep.c, without backreferences and word operators: what a
 * pattern means, the code that `compile` makes of it, and `advance`, which runs the code.
 */
module Regex {

  type byte = x: int | 0 <= x < 256

  const ESIZE: nat := 256
  const NBRA: nat := 9

  const CBRA: byte := 1
  const CCHR: byte := 2
  const CDOT: byte := 4
  const CCL: byte := 6
  const CDOL: byte := 10
  const CEOF: byte := 11
  const CKET: byte := 12
  const STAR: byte := 1

  // ----- meaning

  /** What one piece of a pattern stands for. Groups match nothing by themselves. */
  datatype Item =
    | Char(c: byte)
    | Dot
    | Class(members: set<byte>)
    | End
    | Open(k: byte)
    | Close(k: byte)
  {
    predicate Consumes() {
      Char? || Dot? || Class?
    }

    /** A class looks at the low seven bits only. */
    predicate Accepts(x: byte) {
      match this
      case Char(c) => x == c
      case Dot => true
      case Class(members) => x % 128 in members
      case _ => false
    }

    predicate Ok() {
      match this
      case Char(c) => c != 0
      case Class(members) => forall x :: x in members ==> 0 < x < 128
      case _ => true
    }
  }

  datatype Piece = Piece(item: Item, star: bool)
  {
    predicate Ok() {
      item.Ok() && (star ==> item.Consumes())
    }
  }

  ghost predicate AllOk(ps: seq<Piece>) {
    forall i :: 0 <= i < |ps| ==> ps[i].Ok()
  }

  /** The pieces match some text of t from i on. */
  predicate Matches(ps: seq<Piece>, t: seq<byte>, i: nat)
    requires i <= |t|
    decreases |ps|, |t| - i
  {
    if ps == [] then true
    else
      var x := ps[0].item;
      if ps[0].star then Matches(ps[1..], t, i) || (i < |t| && x.Accepts(t[i]) && Matches(ps, t, i + 1))
      else if x.Consumes() then i < |t| && x.Accepts(t[i]) && Matches(ps[1..], t, i + 1)
      else (x.End? ==> i == |t|) && Matches(ps[1..], t, i)
  }

  // ----- the same, as a division of the text among the pieces

  /** The piece takes exactly t[i..j]. */
  predicate Takes(p: Piece, t: seq<byte>, i: nat, j: nat)
    requires i <= |t| && j <= |t|
  {
    && i <= j
    && (forall k :: i <= k < j ==> p.item.Accepts(t[k]))
    && (if p.star then true else if p.item.Consumes() then j == i + 1 else j == i)
    && (p.item.End? ==> i == |t|)
  }

  /** The k-th piece takes the text between the k-th cut and the next. */
  ghost predicate Divides(ps: seq<Piece>, t: seq<byte>, cuts: seq<nat>) {
    && |cuts| == |ps| + 1
    && (forall k :: 0 <= k < |cuts| ==> cuts[k] <= |t|)
    && (forall k :: 0 <= k < |ps| ==> Takes(ps[k], t, cuts[k], cuts[k + 1]))
  }

  /** A match divides the text among the pieces. */
  lemma {:induction false} MatchDivides(ps: seq<Piece>, t: seq<byte>, i: nat) returns (cuts: seq<nat>)
    requires i <= |t| && AllOk(ps) && Matches(ps, t, i)
    ensures Divides(ps, t, cuts) && cuts[0] == i
    decreases |ps|, |t| - i
  {
    if ps == [] {
      cuts := [i];
    } else if ps[0].star && !Matches(ps[1..], t, i) {
      var more := MatchDivides(ps, t, i + 1);
      cuts := [i] + more[1..];
    } else {
      var j := if !ps[0].star && ps[0].item.Consumes() then i + 1 else i;
      var more := MatchDivides(ps[1..], t, j);
      cuts := [i] + more;
    }
  }

  /** And any division is a match. */
  lemma {:induction false} DivisionMatches(ps: seq<Piece>, t: seq<byte>, cuts: seq<nat>)
    requires AllOk(ps) && Divides(ps, t, cuts)
    ensures Matches(ps, t, cuts[0])
    decreases |ps|, if ps == [] then 0 else cuts[1] - cuts[0]
  {
    if ps != [] {
      if ps[0].star && cuts[0] < cuts[1] {
        DivisionMatches(ps, t, cuts[0 := cuts[0] + 1]);
      } else {
        DivisionMatches(ps[1..], t, cuts[1..]);
      }
    }
  }

  // ----- the greedy run of a starred piece

  /** The longest run of accepted characters from i ends at j. */
  ghost predicate Run(x: Item, t: seq<byte>, i: nat, j: nat) {
    && i <= j <= |t|
    && (forall k :: i <= k < j ==> x.Accepts(t[k]))
    && (j < |t| ==> !x.Accepts(t[j]))
  }

  ghost predicate MatchesWithin(ps: seq<Piece>, t: seq<byte>, i: nat, j: nat)
    requires j <= |t|
  {
    exists k: nat :: i <= k <= j && Matches(ps, t, k)
  }

  /** A starred piece may stop anywhere in its longest run, and nowhere else. */
  lemma {:induction false} StarStops(ps: seq<Piece>, t: seq<byte>, i: nat, j: nat)
    requires ps != [] && ps[0].star && Run(ps[0].item, t, i, j)
    ensures Matches(ps, t, i) <==> MatchesWithin(ps[1..], t, i, j)
    decreases j - i
  {
    if i < j {
      StarStops(ps, t, i + 1, j);
    }
    assert Matches(ps, t, i) <==> Matches(ps[1..], t, i) || (i < j && MatchesWithin(ps[1..], t, i + 1, j));
  }

  /** A piece that is a plain character matches only where that character is. */
  lemma CharFirst(ps: seq<Piece>, t: seq<byte>, i: nat)
    requires i <= |t| && ps != [] && ps[0].item.Char? && !ps[0].star && Matches(ps, t, i)
    ensures i < |t| && t[i] == ps[0].item.c
  {
  }

  // ----- bit maps

  function Power2(k: nat): (p: nat)
    ensures p >= 1
  {
    if k == 0 then 1 else 2 * Power2(k - 1)
  }

  /** `b & bittab[k]` */
  predicate HasBit(b: nat, k: nat) {
    if k == 0 then b % 2 == 1 else HasBit(b / 2, k - 1)
  }

  function SetBit(b: nat, k: nat): nat {
    if k == 0 then b / 2 * 2 + 1 else b % 2 + 2 * SetBit(b / 2, k - 1)
  }

  lemma {:induction false} SetBitBound(b: nat, k: nat, n: nat)
    requires k < n && b < Power2(n)
    ensures SetBit(b, k) < Power2(n)
  {
    var rest, half := b / 2, Power2(n - 1);
    assert rest < half;
    if k == 0 {
      assert SetBit(b, k) == 2 * rest + 1;
    } else {
      SetBitBound(rest, k - 1, n - 1);
      assert SetBit(rest, k - 1) < half;
      assert SetBit(b, k) <= 1 + 2 * SetBit(rest, k - 1);
    }
  }

  /** `b | bittab[k]` */
  function OrBit(b: byte, k: nat): byte
    requires k < 8
  {
    assert Power2(8) == 256;
    SetBitBound(b, k, 8);
    SetBit(b, k)
  }

  /** The n bits for the numbers from `base` on. */
  function Bits(s: set<byte>, base: int, n: nat): (b: nat)
    ensures b < Power2(n)
    decreases n
  {
    if n == 0 then 0 else (if base in s then 1 else 0) + 2 * Bits(s, base + 1, n - 1)
  }

  /** Byte k of the map of a set: the bits for 8k to 8k + 7. */
  function MapByte(s: set<byte>, k: nat): (b: byte) {
    assert Power2(8) == 256;
    Bits(s, 8 * k, 8)
  }

  function BitMap(s: set<byte>): (m: seq<byte>)
    ensures |m| == 16
    ensures forall k :: 0 <= k < 16 ==> m[k] == MapByte(s, k)
  {
    seq(16, k requires 0 <= k < 16 => MapByte(s, k))
  }

  lemma {:induction false} BitsHas(s: set<byte>, base: int, n: nat, j: nat)
    requires j < n
    ensures HasBit(Bits(s, base, n), j) <==> base + j in s
    decreases n
  {
    var rest := Bits(s, base + 1, n - 1);
    assert Bits(s, base, n) / 2 == rest && Bits(s, base, n) % 2 == if base in s then 1 else 0;
    if j > 0 {
      BitsHas(s, base + 1, n - 1, j - 1);
    }
  }

  /** `ep[c>>3] & bittab[c&07]` tells whether c is in the set whose map is at ep. */
  lemma MapHas(s: set<byte>, x: byte)
    ensures HasBit(BitMap(s)[x % 128 / 8], x % 8) <==> x % 128 in s
  {
    hide *;
    var c := x % 128;
    BitIs(s, c / 8, x % 8);
    assert 8 * (c / 8) + x % 8 == c;
  }

  lemma BitIs(s: set<byte>, k: nat, j: nat)
    requires k < 16 && j < 8
    ensures HasBit(BitMap(s)[k], j) <==> 8 * k + j in s
  {
    hide HasBit, Bits;
    BitsHas(s, 8 * k, 8, j);
  }

  // ----- code

  function Starred(p: Piece): byte {
    if p.star then STAR else 0
  }

  function Size(p: Piece): nat {
    match p.item
    case Dot | End => 1
    case Class(_) => 17
    case _ => 2
  }

  /** The code of a piece is at ep. */
  ghost predicate ItemAt(code: seq<byte>, ep: nat, p: Piece) {
    && ep + Size(p) <= |code|
    && match p.item
       case Char(c) => code[ep] == CCHR + Starred(p) && code[ep + 1] == c
       case Dot => code[ep] == CDOT + Starred(p)
       case Class(members) => code[ep] == CCL + Starred(p) && code[ep + 1..ep + 17] == BitMap(members)
       case End => code[ep] == CDOL
       case Open(k) => code[ep] == CBRA && code[ep + 1] == k
       case Close(k) => code[ep] == CKET && code[ep + 1] == k
  }

  /** The code of the pieces, and the end mark, are at ep. */
  ghost predicate CodeAt(code: seq<byte>, ep: nat, ps: seq<Piece>)
    decreases |ps|
  {
    if ps == [] then ep < |code| && code[ep] == CEOF
    else ItemAt(code, ep, ps[0]) && CodeAt(code, ep + Size(ps[0]), ps[1..])
  }

  /** The code has one reading only. */
  lemma {:induction false} OneReading(code: seq<byte>, ep: nat, a: seq<Piece>, b: seq<Piece>)
    requires CodeAt(code, ep, a) && CodeAt(code, ep, b) && AllOk(a) && AllOk(b)
    ensures a == b
    decreases |a|
  {
    if a != [] && b != [] {
      OneItem(code, ep, a[0], b[0]);
      OneReading(code, ep + Size(a[0]), a[1..], b[1..]);
      assert a == [a[0]] + a[1..] && b == [b[0]] + b[1..];
    }
  }

  lemma OneItem(code: seq<byte>, ep: nat, p: Piece, q: Piece)
    requires ItemAt(code, ep, p) && ItemAt(code, ep, q) && p.Ok() && q.Ok()
    ensures p == q
  {
    if p.item.Class? {
      assert q.item.Class?;
      SameMaps(p.item.members, q.item.members);
    }
  }

  lemma SameMaps(s: set<byte>, r: set<byte>)
    requires BitMap(s) == BitMap(r) && Class(s).Ok() && Class(r).Ok()
    ensures s == r
  {
    hide BitMap, HasBit;
    forall x: byte
      ensures x in s <==> x in r
    {
      if x < 128 {
        SameBit(s, r, x);
      }
    }
  }

  lemma SameBit(s: set<byte>, r: set<byte>, x: byte)
    requires BitMap(s) == BitMap(r) && x < 128
    ensures x in s <==> x in r
  {
    hide *;
    BitIs(s, x / 8, x % 8);
    BitIs(r, x / 8, x % 8);
    assert 8 * (x / 8) + x % 8 == x;
  }

  // ----- advance

  /** The line buffer holds the text t and a NUL. */
  ghost predicate LineHolds(line: seq<byte>, t: seq<byte>) {
    && |t| < |line| && line[..|t|] == t && line[|t|] == 0
    && forall i :: 0 <= i < |t| ==> t[i] != 0
  }

  /** `while (*lp++);` and the step back after it */
  method RunOfAny(line: seq<byte>, lp: nat, ghost t: seq<byte>) returns (end: nat)
    requires LineHolds(line, t) && lp <= |t|
    ensures Run(Dot, t, lp, end)
  {
    end := lp;
    while line[end] != 0
      invariant lp <= end <= |t|
      decreases |t| - end
    {
      end := end + 1;
    }
    end := end + 1;
    end := end - 1;
  }

  /** `while (*lp++ == *ep);` */
  method RunOfChar(line: seq<byte>, lp: nat, c: byte, ghost t: seq<byte>) returns (end: nat)
    requires LineHolds(line, t) && lp <= |t| && c != 0
    ensures Run(Char(c), t, lp, end)
  {
    end := lp;
    while line[end] == c
      invariant lp <= end <= |t|
      invariant forall k :: lp <= k < end ==> t[k] == c
      decreases |t| - end
    {
      assert line[end] == t[end];
      end := end + 1;
    }
    assert end < |t| ==> t[end] == line[end];
  }

  /** The loop for a class; the map is at ep. */
  method RunOfClass(line: seq<byte>, lp: nat, code: seq<byte>, ep: nat, ghost s: set<byte>, ghost t: seq<byte>)
    returns (end: nat)
    requires LineHolds(line, t) && lp <= |t| && Class(s).Ok() && ep + 16 <= |code| && code[ep..ep + 16] == BitMap(s)
    ensures Run(Class(s), t, lp, end)
  {
    end := lp;
    var more := ClassHas(code, ep, line[end], s);
    while more
      invariant lp <= end <= |t|
      invariant forall k :: lp <= k < end ==> t[k] % 128 in s
      invariant more == (line[end] % 128 in s)
      decreases |t| - end, more
    {
      assert end < |t|;
      assert line[end] == t[end];
      end := end + 1;
      more := ClassHas(code, ep, line[end], s);
    }
    assert end < |t| ==> t[end] == line[end];
  }

  method ClassHas(code: seq<byte>, ep: nat, x: byte, ghost s: set<byte>) returns (r: bool)
    requires ep + 16 <= |code| && code[ep..ep + 16] == BitMap(s)
    ensures r <==> x % 128 in s
  {
    hide HasBit, MapByte;
    var c := x % 128;
    MapHas(s, x);
    assert c % 8 == x % 8;
    assert code[ep + c / 8] == code[ep..ep + 16][c / 8];
    r := HasBit(code[ep + c / 8], c % 8);
  }

  /** The label `star`: the stops of the run from lp back to curlp, the farthest first. */
  method TryStops(line: seq<byte>, curlp: nat, end: nat, code: seq<byte>, ep: nat,
                  ghost t: seq<byte>, ghost ps: seq<Piece>)
    returns (r: bool)
    requires LineHolds(line, t) && curlp <= end <= |t| && CodeAt(code, ep, ps) && AllOk(ps)
    ensures r <==> MatchesWithin(ps, t, curlp, end)
    decreases |ps|, 1
  {
    var lp: int := end;
    if code[ep] == CCHR {
      var c := code[ep + 1];
      assert ps[0] == Piece(Char(c), false);
      while lp >= curlp
        invariant curlp - 1 <= lp <= end
        invariant forall k: nat :: lp < k <= end ==> !Matches(ps, t, k)
        decreases lp
      {
        if line[lp] == c {
          var found := Advance(line, lp, code, ep, t, ps);
          if found {
            return true;
          }
        } else if Matches(ps, t, lp) {
          CharFirst(ps, t, lp);
        }
        lp := lp - 1;
      }
      return false;
    }
    while lp >= curlp
      invariant curlp - 1 <= lp <= end
      invariant forall k: nat :: lp < k <= end ==> !Matches(ps, t, k)
      decreases lp
    {
      var found := Advance(line, lp, code, ep, t, ps);
      if found {
        return true;
      }
      lp := lp - 1;
    }
    r := false;
  }

  /** `advance`: the code at ep matches some text from lp on. */
  method Advance(line: seq<byte>, lp0: nat, code: seq<byte>, ep0: nat, ghost t: seq<byte>, ghost ps0: seq<Piece>)
    returns (r: bool)
    requires LineHolds(line, t) && lp0 <= |t| && CodeAt(code, ep0, ps0) && AllOk(ps0)
    ensures r <==> Matches(ps0, t, lp0)
    decreases |ps0|, 0
  {
    var lp, ep := lp0, ep0;
    ghost var ps := ps0;
    while true
      invariant 0 <= lp <= |t| && 0 <= ep && CodeAt(code, ep, ps) && AllOk(ps) && |ps| <= |ps0|
      invariant Matches(ps, t, lp) <==> Matches(ps0, t, lp0)
      decreases |ps|
    {
      var op := code[ep];
      ep := ep + 1;
      assert lp < |t| ==> line[lp] == t[lp];
      if op == CEOF {
        assert ps == [];
        return true;
      } else if op == CCHR {
        if code[ep] != line[lp] {
          return false;
        }
        ep, lp := ep + 1, lp + 1;
      } else if op == CDOT {
        if line[lp] == 0 {
          return false;
        }
        lp := lp + 1;
      } else if op == CDOL {
        if line[lp] != 0 {
          return false;
        }
      } else if op == CCL {
        var has := ClassHas(code, ep, line[lp], ps[0].item.members);
        if !has {
          return false;
        }
        ep, lp := ep + 16, lp + 1;
      } else if op == CBRA || op == CKET {
        ep := ep + 1;
      } else {
        var curlp := lp;
        if op == CDOT + STAR {
          lp := RunOfAny(line, lp, t);
        } else if op == CCHR + STAR {
          lp := RunOfChar(line, lp, code[ep], t);
          ep := ep + 1;
        } else {
          lp := RunOfClass(line, lp, code, ep, ps[0].item.members, t);
          ep := ep + 16;
        }
        StarStops(ps, t, curlp, lp);
        if lp != curlp {
          r := TryStops(line, curlp, lp, code, ep, t, ps[1..]);
          return;
        }
      }
      ps := ps[1..];
    }
  }

  // ----- what a pattern says

  const NEGATE: byte := 94      // ^
  const DOLLAR: byte := 36      // $
  const LEFT: byte := 40        // (
  const RIGHT: byte := 41       // )
  const ASTERISK: byte := 42    // *
  const HYPHEN: byte := 45      // -
  const PERIOD: byte := 46      // .
  const BRACKET: byte := 91     // [
  const BACKSLASH: byte := 92   // \
  const UNBRACKET: byte := 93   // ]

  /** A pattern is a string of seven-bit characters. */
  predicate IsPattern(p: seq<byte>) {
    forall i :: 0 <= i < |p| ==> 0 < p[i] < 128
  }

  /** From a up to b; a alone if b comes before it. */
  function Range(a: byte, b: byte): (s: set<byte>)
    ensures a in s
  {
    Below(a, b) + {if a <= b then b else a}
  }

  function Below(a: byte, b: nat): (s: set<byte>)
    requires b <= 256
    ensures forall x :: x in s <==> a <= x < b
  {
    if a < b then Below(a, b - 1) + {b - 1} else {}
  }

  datatype ClassText = ClassText(members: set<byte>, next: nat) | NoEnd | PastEnd

  /** The members of a class that starts at `start`, from the character at j on. */
  function Members(p: seq<byte>, start: nat, j: nat, acc: set<byte>): (r: ClassText)
    requires start <= j <= |p|
    ensures r.ClassText? ==> j < r.next <= |p|
    ensures r.ClassText? && IsPattern(p) && Class(acc).Ok() ==> Class(r.members).Ok()
    decreases |p| - j, 0
  {
    if j == |p| then NoEnd
    else if p[j] == HYPHEN && j > start && (j + 1 == |p| || p[j + 1] != UNBRACKET) then
      if j + 1 == |p| then PastEnd
      else NextMember(p, start, j + 2, acc + Range(p[j - 1], p[j + 1]))
    else NextMember(p, start, j + 1, acc + {p[j]})
  }

  /** A class ends at the first right bracket that does not start it. */
  function NextMember(p: seq<byte>, start: nat, j: nat, acc: set<byte>): (r: ClassText)
    requires start < j <= |p|
    ensures r.ClassText? ==> j < r.next <= |p|
    ensures r.ClassText? && IsPattern(p) && Class(acc).Ok() ==> Class(r.members).Ok()
    decreases |p| - j, 1
  {
    if j < |p| && p[j] == UNBRACKET then ClassText(acc, j + 1) else Members(p, start, j, acc)
  }

  /** The seven-bit characters, without NUL, that are not in the set. */
  function Complement(s: set<byte>): set<byte> {
    set x: byte | 0 < x < 128 && x !in s
  }

  /** The class after a left bracket. */
  function ParseClass(p: seq<byte>, i: nat): (r: ClassText)
    requires i <= |p|
    ensures r.ClassText? ==> i < r.next <= |p|
    ensures r.ClassText? && IsPattern(p) ==> Class(r.members).Ok()
  {
    if i < |p| && p[i] == NEGATE then
      match Members(p, i + 1, i + 1, {})
      case ClassText(members, next) => ClassText(Complement(members), next)
      case other => other
    else Members(p, i, i, {})
  }

  /** Overrun: a class is read past the end of the pattern. Overflow: a byte is put behind the buffer. */
  datatype Parsed = Done(pieces: seq<Piece>) | Refused | Overrun | Overflow | NotModelled

  function CodeSize(ps: seq<Piece>): nat {
    if ps == [] then 0 else CodeSize(ps[..|ps| - 1]) + Size(ps[|ps| - 1])
  }

  function SetStar(ps: seq<Piece>): (r: seq<Piece>)
    requires ps != []
    ensures |r| == |ps|
  {
    ps[|ps| - 1 := ps[|ps| - 1].(star := true)]
  }

  /**
   * A point of a pattern, at i, after the pieces ps: `starrable` says whether an asterisk here
   * would apply to the last of them, `groups` how many groups there have been, and `open`
   * which of them are open.
   */
  datatype Point = Point(i: nat, ps: seq<Piece>, starrable: bool, groups: nat, open: seq<byte>)
  {
    predicate In(p: seq<byte>) {
      i <= |p| && groups <= NBRA && (starrable ==> ps != [])
    }
  }

  datatype Move = On(next: Point) | Stop(result: Parsed)

  /** On by one piece, or an asterisk. */
  function OneStep(p: seq<byte>, at: Point): (m: Move)
    requires at.In(p) && at.i < |p|
    ensures m.On? ==> m.next.In(p) && at.i < m.next.i
  {
    var Point(i, ps, starrable, groups, open) := at;
    var c := p[i];
    if c == PERIOD then On(Point(i + 1, ps + [Piece(Dot, false)], true, groups, open))
    else if c == ASTERISK then
      if starrable then On(Point(i + 1, SetStar(ps), true, groups, open))
      else On(Point(i + 1, ps + [Piece(Char(c), false)], false, groups, open))
    else if c == DOLLAR && i + 1 == |p| then On(Point(i + 1, ps + [Piece(End, false)], false, groups, open))
    else if c == BRACKET then
      if CodeSize(ps) + 17 >= ESIZE then Stop(Refused)
      else match ParseClass(p, i + 1)
        case ClassText(members, next) => On(Point(next, ps + [Piece(Class(members), false)], true, groups, open))
        case NoEnd => Stop(Refused)
        case PastEnd => Stop(Overrun)
    else if c == BACKSLASH then
      if i + 1 == |p| then Stop(Refused)
      else
        var d := p[i + 1];
        if IsUnmodelled(d) then Stop(NotModelled)
        else if d == LEFT then
          if groups >= NBRA then Stop(Refused)
          else On(Point(i + 2, ps + [Piece(Open(groups), false)], false, groups + 1, open + [groups]))
        else if d == RIGHT then
          if open == [] then Stop(Refused)
          else On(Point(i + 2, ps + [Piece(Close(open[|open| - 1]), false)], false, groups, open[..|open| - 1]))
        else On(Point(i + 2, ps + [Piece(Char(d), false)], true, groups, open))
    else On(Point(i + 1, ps + [Piece(Char(c), false)], true, groups, open))
  }

  /** The pieces of a pattern from a point on. */
  function ParseFrom(p: seq<byte>, i: nat, ps: seq<Piece>, starrable: bool, groups: nat, open: seq<byte>): Parsed
    requires i <= |p| && groups <= NBRA && (starrable ==> ps != [])
    decreases |p| - i
  {
    if CodeSize(ps) > ESIZE then Overflow
    else if CodeSize(ps) == ESIZE then Refused
    else if i == |p| then Done(ps)
    else
      match OneStep(p, Point(i, ps, starrable, groups, open))
      case On(next) => ParseFrom(p, next.i, next.ps, next.starrable, next.groups, next.open)
      case Stop(r) => r
  }

  /** Backreferences, and the word operators. */
  predicate IsUnmodelled(d: byte) {
    49 <= d <= 57 || d == 60 || d == 62
  }

  /** The pieces of a pattern; an initial ^ is not one of them. */
  function Parse(p: seq<byte>): Parsed {
    ParseFrom(p, if Anchored(p) then 1 else 0, [], false, 0, [])
  }

  predicate Anchored(p: seq<byte>) {
    p != [] && p[0] == NEGATE
  }

  // ----- which patterns are written or read past an end

  function First(p: seq<byte>): (at: Point)
    ensures at.In(p)
  {
    Point(if Anchored(p) then 1 else 0, [], false, 0, [])
  }

  function From(p: seq<byte>, at: Point): Parsed
    requires at.In(p)
  {
    ParseFrom(p, at.i, at.ps, at.starrable, at.groups, at.open)
  }

  /** Here the pattern goes on, and there is still room. */
  predicate GoesOn(p: seq<byte>, at: Point) {
    at.In(p) && at.i < |p| && CodeSize(at.ps) < ESIZE
  }

  /** A character or a group mark follows, of which only the first byte has room. */
  predicate AtLastByte(p: seq<byte>, at: Point) {
    && GoesOn(p, at) && CodeSize(at.ps) == ESIZE - 1
    && OneStep(p, at).On?
    && var next := OneStep(p, at).next.ps;
    && |next| == |at.ps| + 1
    && (next[|at.ps|].item.Char? || next[|at.ps|].item.Open? || next[|at.ps|].item.Close?)
  }

  /** A step adds a piece, or makes one repeat. */
  lemma {:induction false} StepAdds(p: seq<byte>, at: Point)
    requires GoesOn(p, at) && OneStep(p, at).On?
    ensures var next := OneStep(p, at).next.ps;
      if |next| == |at.ps| then CodeSize(next) == CodeSize(at.ps)
      else |next| == |at.ps| + 1 && CodeSize(next) == CodeSize(at.ps) + Size(next[|at.ps|])
           && (next[|at.ps|].item.Class? ==> CodeSize(next) < ESIZE)
  {
    var next := OneStep(p, at).next.ps;
    if |next| == |at.ps| + 1 {
      assert next[..|at.ps|] == at.ps;
    } else {
      assert next[..|at.ps| - 1] == at.ps[..|at.ps| - 1];
    }
  }

  /** The pattern comes to such a point. */
  predicate ComesToLastByte(p: seq<byte>, from: Point)
    decreases if from.i <= |p| then |p| - from.i else 0
  {
    GoesOn(p, from) && OneStep(p, from).On? && (AtLastByte(p, from) || ComesToLastByte(p, OneStep(p, from).next))
  }

  /**
   * A byte is put behind the buffer if and only if the pattern comes to a point where all but
   * one byte of the buffer is used, and a character or a group mark follows.
   */
  lemma {:induction false} OverflowExactly(p: seq<byte>, from: Point)
    requires from.In(p) && CodeSize(from.ps) <= ESIZE
    ensures From(p, from) == Overflow <==> ComesToLastByte(p, from)
    decreases |p| - from.i
  {
    hide CodeSize;
    if GoesOn(p, from) && OneStep(p, from).On? {
      StepAdds(p, from);
      var next := OneStep(p, from).next;
      assert AtLastByte(p, from) <==> CodeSize(next.ps) > ESIZE;
      assert from == Point(from.i, from.ps, from.starrable, from.groups, from.open);
      if AtLastByte(p, from) {
        assert From(p, next) == Overflow;
      } else {
        OverflowExactly(p, next);
      }
    }
  }

  lemma {:induction false} WrittenPastEndExactly(p: seq<byte>)
    ensures StatusOf(Parse(p)) == WrittenPastEnd <==> ComesToLastByte(p, First(p))
  {
    OverflowExactly(p, First(p));
  }

  /** A plain character stands for itself wherever it is. */
  predicate Plain(c: byte) {
    c != PERIOD && c != ASTERISK && c != DOLLAR && c != BRACKET && c != BACKSLASH && c != NEGATE
  }

  /** Only plain characters follow, and the last of them comes to the last byte. */
  lemma {:induction false} PlainTail(p: seq<byte>, at: Point)
    requires at.In(p) && (forall j :: at.i <= j < |p| ==> Plain(p[j]))
    requires CodeSize(at.ps) + 2 * (|p| - at.i) == ESIZE + 1
    ensures From(p, at) == Overflow
    decreases |p| - at.i
  {
    if at.i < |p| {
      var next := OneStep(p, at).next;
      assert next.ps == at.ps + [Piece(Char(p[at.i]), false)];
      assert next.ps[..|at.ps|] == at.ps;
      PlainTail(p, next);
    }
  }

  /** A period and 128 plain characters: the last of them is put, by half, behind the buffer. */
  lemma {:induction false} PeriodAndPlain(p: seq<byte>)
    requires |p| == 129 && p[0] == PERIOD && forall j :: 1 <= j < 129 ==> Plain(p[j])
    ensures StatusOf(Parse(p)) == WrittenPastEnd
  {
    var next := OneStep(p, First(p)).next;
    assert next.ps == [Piece(Dot, false)] && next.ps[..0] == [];
    assert CodeSize(next.ps) == 1;
    PlainTail(p, next);
  }

  /** The hyphen at j begins the end of a range. */
  predicate Ranges(p: seq<byte>, start: nat, j: nat) {
    start < j && j + 1 < |p| && p[j] == HYPHEN && p[j + 1] != UNBRACKET
  }

  /**
   * In a class that starts at `start` the character at k, or the end of the pattern, is read by
   * itself: neither does it end a range, nor has the class ended before.
   */
  predicate ReadAt(p: seq<byte>, start: nat, k: nat)
    decreases k
  {
    k == start ||
    (start < k <= |p| && (k < |p| ==> p[k] != UNBRACKET)
     && ((ReadAt(p, start, k - 1) && !Ranges(p, start, k - 1))
         || (start + 2 <= k && ReadAt(p, start, k - 2) && Ranges(p, start, k - 2))))
  }

  /** The end of a range is not read by itself. */
  lemma {:induction false} RangeEnds(p: seq<byte>, start: nat, j: nat)
    requires start < j && ReadAt(p, start, j) && Ranges(p, start, j)
    ensures !ReadAt(p, start, j + 1)
  {
    if ReadAt(p, start, j + 1) {
      assert ReadAt(p, start, j - 1) && Ranges(p, start, j - 1);
      RangeEnds(p, start, j - 1);
    }
  }

  /** The last character is a hyphen, read by itself, and not the first of the class. */
  predicate EndsInHyphen(p: seq<byte>, start: nat) {
    start + 1 < |p| && p[|p| - 1] == HYPHEN && ReadAt(p, start, |p| - 1)
  }

  /** Nothing is read any more once the class has ended. */
  lemma {:induction false} NothingAfter(p: seq<byte>, start: nat, n: nat, k: nat)
    requires start < n <= k && !ReadAt(p, start, n) && (!ReadAt(p, start, n - 1) || !Ranges(p, start, n - 1))
    ensures !ReadAt(p, start, k)
    decreases k
  {
    if k > n {
      NothingAfter(p, start, n, k - 1);
      if k - 2 >= n {
        NothingAfter(p, start, n, k - 2);
      }
    }
  }

  /** The next character that is read by itself after the one at j. */
  function NextRead(p: seq<byte>, start: nat, j: nat): (n: nat)
    ensures n > j
  {
    if Ranges(p, start, j) then j + 2 else j + 1
  }

  /** From a character read by itself on: the class is read past the end exactly if it ends in a hyphen. */
  lemma {:induction false} PastEndFrom(p: seq<byte>, start: nat, j: nat, acc: set<byte>)
    requires start <= j <= |p| && ReadAt(p, start, j)
    ensures Members(p, start, j, acc) == PastEnd <==> EndsInHyphen(p, start) && j < |p|
    decreases |p| - j
  {
    if j < |p| && !(j > start && p[j] == HYPHEN && j + 1 == |p|) {
      var n := NextRead(p, start, j);
      if Ranges(p, start, j) {
        RangeEnds(p, start, j);
      }
      if n < |p| && p[n] == UNBRACKET {
        NothingAfter(p, start, n, |p| - 1);
      } else {
        PastEndFrom(p, start, n, if Ranges(p, start, j) then acc + Range(p[j - 1], p[j + 1]) else acc + {p[j]});
      }
    }
  }

  /** Where the members of a class begin whose bracket is at i. */
  function ClassStart(p: seq<byte>, i: nat): nat
    requires i < |p|
  {
    if i + 1 < |p| && p[i + 1] == NEGATE then i + 2 else i + 1
  }

  /** A class begins here that is read past the end of the pattern. */
  predicate AtOpenClass(p: seq<byte>, at: Point) {
    && GoesOn(p, at) && p[at.i] == BRACKET && CodeSize(at.ps) + 17 < ESIZE
    && EndsInHyphen(p, ClassStart(p, at.i))
  }

  predicate ComesToOpenClass(p: seq<byte>, from: Point)
    decreases if from.i <= |p| then |p| - from.i else 0
  {
    && GoesOn(p, from)
    && (AtOpenClass(p, from) || (OneStep(p, from).On? && ComesToOpenClass(p, OneStep(p, from).next)))
  }

  lemma {:induction false} OpenClassStops(p: seq<byte>, at: Point)
    requires GoesOn(p, at)
    ensures OneStep(p, at) == Stop(Overrun) <==> AtOpenClass(p, at)
  {
    if p[at.i] == BRACKET {
      var start := ClassStart(p, at.i);
      PastEndFrom(p, start, start, {});
    }
  }

  lemma {:induction false} OverrunExactly(p: seq<byte>, from: Point)
    requires from.In(p)
    ensures From(p, from) == Overrun <==> ComesToOpenClass(p, from)
    decreases |p| - from.i
  {
    hide CodeSize, EndsInHyphen;
    if GoesOn(p, from) {
      OpenClassStops(p, from);
      if OneStep(p, from).On? {
        OverrunExactly(p, OneStep(p, from).next);
      }
    }
  }

  /**
   * A pattern is read past its end if and only if it comes to a class that is not closed and
   * ends in a hyphen, which is not the first of the class and not the end of a range.
   */
  lemma {:induction false} ReadPastEndExactly(p: seq<byte>)
    ensures StatusOf(Parse(p)) == ReadPastEnd <==> ComesToOpenClass(p, First(p))
  {
    OverrunExactly(p, First(p));
  }

  /** The pattern [a- */
  lemma {:induction false} OpenRange()
    ensures StatusOf(Parse([BRACKET, 97, HYPHEN])) == ReadPastEnd
  {
    var p: seq<byte> := [BRACKET, 97, HYPHEN];
    assert ReadAt(p, 1, 1) && !Ranges(p, 1, 1);
    assert ReadAt(p, 1, 2);
    assert AtOpenClass(p, First(p));
    ReadPastEndExactly(p);
  }

  // ----- compile: classes

  lemma {:induction false} BitsWith(s: set<byte>, c: byte, base: int, n: nat)
    ensures Bits(s + {c}, base, n) ==
      if base <= c < base + n then SetBit(Bits(s, base, n), c - base) else Bits(s, base, n)
    decreases n
  {
    if n > 0 {
      BitsWith(s, c, base + 1, n - 1);
      var rest := Bits(s, base + 1, n - 1);
      assert Bits(s, base, n) / 2 == rest && Bits(s, base, n) % 2 == if base in s then 1 else 0;
    }
  }

  lemma MapWith(s: set<byte>, c: byte, k: nat)
    requires c < 128 && k < 16
    ensures MapByte(s + {c}, k) == if k == c / 8 then OrBit(MapByte(s, k), c % 8) else MapByte(s, k)
  {
    hide Bits, SetBit;
    BitsWith(s, c, 8 * k, 8);
    assert 8 * k <= c < 8 * k + 8 <==> k == c / 8;
  }

  lemma {:induction false} BitsComplement(s: set<byte>, base: int, n: nat)
    requires 0 < base && base + n <= 128
    ensures Bits(Complement(s), base, n) == Power2(n) - 1 - Bits(s, base, n)
    decreases n
  {
    if n > 0 {
      BitsComplement(s, base + 1, n - 1);
    }
  }

  lemma MapComplement(s: set<byte>, k: nat)
    requires k < 16 && 0 !in s
    ensures MapByte(Complement(s), k) == if k == 0 then (255 - MapByte(s, k)) / 2 * 2 else 255 - MapByte(s, k)
  {
    assert Power2(7) == 128 && Power2(8) == 256;
    if k == 0 {
      BitsComplement(s, 1, 7);
      FirstByte(s);
      FirstByte(Complement(s));
    } else {
      BitsComplement(s, 8 * k, 8);
    }
  }

  /** NUL is in no class. */
  lemma FirstByte(s: set<byte>)
    requires 0 !in s
    ensures MapByte(s, 0) == 2 * Bits(s, 1, 7)
  {
  }

  /** The map of the set is in the buffer at ep, and the rest of the buffer is as it was. */
  ghost predicate MapAt(buf: seq<byte>, was: seq<byte>, ep: nat, s: set<byte>) {
    && ep + 16 <= |buf| == |was|
    && (forall i :: ep <= i < ep + 16 ==> buf[i] == MapByte(s, i - ep))
    && (forall i :: 0 <= i < |buf| && !(ep <= i < ep + 16) ==> buf[i] == was[i])
  }

  /** `ep[c>>3] |= bittab[c&07];` */
  method AddMember(expbuf: array<byte>, ep: nat, c: byte, ghost was: seq<byte>, ghost s: set<byte>)
    requires MapAt(expbuf[..], was, ep, s) && c < 128
    modifies expbuf
    ensures MapAt(expbuf[..], was, ep, s + {c})
  {
    hide MapAt, OrBit;
    ghost var buf := expbuf[..];
    MapGrows(buf, was, ep, s, c);
    expbuf[ep + c / 8] := OrBit(expbuf[ep + c / 8], c % 8);
    assert expbuf[..] == buf[ep + c / 8 := OrBit(buf[ep + c / 8], c % 8)];
  }

  lemma MapGrows(buf: seq<byte>, was: seq<byte>, ep: nat, s: set<byte>, c: byte)
    requires MapAt(buf, was, ep, s) && c < 128
    ensures ep + 16 <= |buf| && MapAt(buf[ep + c / 8 := OrBit(buf[ep + c / 8], c % 8)], was, ep, s + {c})
  {
    hide MapByte, OrBit;
    forall k | 0 <= k < 16
      ensures MapByte(s + {c}, k) == if k == c / 8 then OrBit(MapByte(s, k), c % 8) else MapByte(s, k)
    {
      MapWith(s, c, k);
    }
  }

  /** The loop for a range, up to but not including its end; c is where it leaves off. */
  method AddBelow(expbuf: array<byte>, ep: nat, a: byte, b: byte, ghost was: seq<byte>, ghost s: set<byte>)
    returns (c: byte)
    requires MapAt(expbuf[..], was, ep, s) && a < 128 && b < 128
    modifies expbuf
    ensures MapAt(expbuf[..], was, ep, s + Below(a, b)) && c == if a <= b then b else a
  {
    hide MapAt;
    c := a;
    assert s + Below(a, c) == s;
    while c < b
      invariant a <= c <= (if a <= b then b else a)
      invariant MapAt(expbuf[..], was, ep, s + Below(a, c))
    {
      AddMember(expbuf, ep, c, was, s + Below(a, c));
      assert s + Below(a, c) + {c} == s + Below(a, c + 1);
      c := c + 1;
    }
    assert Below(a, c) == Below(a, b);
  }

  /** The last three are not the source's own: what it does then is not defined, or not modelled. */
  datatype Status = Compiled | ReError | ReadPastEnd | WrittenPastEnd | Unsupported

  function ClassStatus(r: ClassText): Status {
    match r case ClassText(_, _) => Compiled case NoEnd => ReError case PastEnd => ReadPastEnd
  }

  /** The loop over the members of a class, whose map is to be at ep. */
  method CompileMembers(p: seq<byte>, cstart: nat, expbuf: array<byte>, ep: nat)
    returns (status: Status, sp: nat)
    requires IsPattern(p) && cstart <= |p| && MapAt(expbuf[..], expbuf[..], ep, {})
    modifies expbuf
    ensures status == ClassStatus(Members(p, cstart, cstart, {}))
    ensures status.Compiled? ==> var r := Members(p, cstart, cstart, {});
      sp == r.next && MapAt(expbuf[..], old(expbuf[..]), ep, r.members) && 0 !in r.members
    ensures forall i :: 0 <= i < expbuf.Length && !(ep <= i < ep + 16) ==> expbuf[i] == old(expbuf[i])
  {
    ghost var acc: set<byte>, was := {}, expbuf[..];
    sp := cstart;
    while true
      invariant cstart <= sp <= |p| && MapAt(expbuf[..], was, ep, acc) && 0 !in acc
      invariant Members(p, cstart, cstart, {}) == Members(p, cstart, sp, acc)
      decreases |p| - sp
    {
      if sp == |p| {
        return ReError, sp;
      }
      var c := p[sp];
      sp := sp + 1;
      if c == HYPHEN && sp > cstart + 1 && (sp == |p| || p[sp] != UNBRACKET) {
        if sp == |p| {
          return ReadPastEnd, sp;
        }
        var a, b := p[sp - 2], p[sp];
        c := AddBelow(expbuf, ep, a, b, was, acc);
        sp := sp + 1;
        assert acc + Below(a, b) + {c} == acc + Range(a, b);
        acc := acc + Below(a, b);
      }
      AddMember(expbuf, ep, c, was, acc);
      acc := acc + {c};
      if sp < |p| && p[sp] == UNBRACKET {
        sp := sp + 1;
        return Compiled, sp;
      }
    }
  }

  /** The rest of a left bracket: the map of the class at ep, complemented after a ^. */
  method CompileClass(p: seq<byte>, sp0: nat, expbuf: array<byte>, ep: nat) returns (status: Status, sp: nat)
    requires IsPattern(p) && sp0 <= |p| && ep + 16 <= expbuf.Length
    requires forall i :: ep <= i < ep + 16 ==> expbuf[i] == 0
    modifies expbuf
    ensures status == ClassStatus(ParseClass(p, sp0))
    ensures status.Compiled? ==> var r := ParseClass(p, sp0);
      sp == r.next && expbuf[ep..ep + 16] == BitMap(r.members)
    ensures forall i :: 0 <= i < expbuf.Length && !(ep <= i < ep + 16) ==> expbuf[i] == old(expbuf[i])
  {
    sp := sp0;
    var neg := false;
    if sp < |p| && p[sp] == NEGATE {
      neg := true;
      sp := sp + 1;
    }
    ghost var r := Members(p, sp, sp, {});
    status, sp := CompileMembers(p, sp, expbuf, ep);
    if status.Compiled? {
      assert expbuf[ep..ep + 16] == BitMap(r.members);
    }
    if status.Compiled? && neg {
      ComplementMap(expbuf, ep, r.members);
    }
  }

  /** `ep[cclcnt] ^= -1` for every byte of the map, and `ep[0] &= 0376`. */
  method ComplementMap(expbuf: array<byte>, ep: nat, ghost s: set<byte>)
    requires ep + 16 <= expbuf.Length && 0 !in s && expbuf[ep..ep + 16] == BitMap(s)
    modifies expbuf
    ensures expbuf[ep..ep + 16] == BitMap(Complement(s))
    ensures forall i :: 0 <= i < expbuf.Length && !(ep <= i < ep + 16) ==> expbuf[i] == old(expbuf[i])
  {
    hide BitMap, Complement;
    ghost var was := expbuf[..];
    assert was[ep..ep + 16] == BitMap(s);
    InvertBytes(expbuf, ep);
    expbuf[ep] := expbuf[ep] / 2 * 2;
    ComplementIs(s, was, expbuf[..], ep);
    assert expbuf[ep..ep + 16] == expbuf[..][ep..ep + 16];
  }

  method InvertBytes(expbuf: array<byte>, ep: nat)
    requires ep + 16 <= expbuf.Length
    modifies expbuf
    ensures forall i :: 0 <= i < expbuf.Length ==>
      expbuf[i] == if ep <= i < ep + 16 then 255 - old(expbuf[i]) else old(expbuf[i])
  {
    var cclcnt := 0;
    while cclcnt < 16
      invariant 0 <= cclcnt <= 16
      invariant forall i :: 0 <= i < expbuf.Length ==>
        expbuf[i] == if ep <= i < ep + cclcnt then 255 - old(expbuf[i]) else old(expbuf[i])
    {
      expbuf[ep + cclcnt] := 255 - expbuf[ep + cclcnt];
      cclcnt := cclcnt + 1;
    }
  }

  lemma ComplementIs(s: set<byte>, was: seq<byte>, now: seq<byte>, ep: nat)
    requires 0 !in s && ep + 16 <= |was| == |now| && was[ep..ep + 16] == BitMap(s)
    requires now[ep] == (255 - was[ep]) / 2 * 2 && forall i :: ep < i < ep + 16 ==> now[i] == 255 - was[i]
    ensures now[ep..ep + 16] == BitMap(Complement(s))
  {
    hide MapByte, Complement;
    forall k | 0 <= k < 16
      ensures now[ep..ep + 16][k] == MapByte(Complement(s), k)
    {
      MapComplement(s, k);
      assert was[ep + k] == was[ep..ep + 16][k] == MapByte(s, k);
    }
  }

  // ----- compile: the buffer

  /** The code of the pieces fills the buffer up to ep. */
  ghost predicate Written(code: seq<byte>, ps: seq<Piece>, ep: int)
    decreases |ps|
  {
    if ps == [] then ep == 0
    else
      var p := ps[|ps| - 1];
      Size(p) <= ep && ItemAt(code, ep - Size(p), p) && Written(code, ps[..|ps| - 1], ep - Size(p))
  }

  lemma {:induction false} WrittenSame(code: seq<byte>, now: seq<byte>, ps: seq<Piece>, ep: nat)
    requires ep <= |code| == |now| && code[..ep] == now[..ep] && Written(code, ps, ep)
    ensures Written(now, ps, ep)
    decreases |ps|
  {
    if ps != [] {
      var p := ps[|ps| - 1];
      var at := ep - Size(p);
      assert forall i :: 0 <= i < ep ==> code[i] == code[..ep][i] == now[i];
      assert code[at + 1..ep] == now[at + 1..ep];
      WrittenSame(code, now, ps[..|ps| - 1], at);
    }
  }

  /** What was written up to ep, and what follows, is read as one. */
  lemma {:induction false} WrittenReads(code: seq<byte>, a: seq<Piece>, ep: nat, b: seq<Piece>)
    requires Written(code, a, ep) && CodeAt(code, ep, b)
    ensures CodeAt(code, 0, a + b)
    decreases |a|
  {
    hide ItemAt, Size;
    if a == [] {
      assert a + b == b;
    } else {
      var p := a[|a| - 1];
      var more := [p] + b;
      assert more[1..] == b;
      WrittenReads(code, a[..|a| - 1], ep - Size(p), more);
      assert a + b == a[..|a| - 1] + more;
    }
  }

  /** The state of the buffer in the loop of `compile`: it is clear from ep on. */
  ghost predicate Emitted(code: seq<byte>, ps: seq<Piece>, ep: int) {
    && 0 <= ep <= |code| && Written(code, ps, ep) && AllOk(ps) && ep == CodeSize(ps)
    && forall i :: ep <= i < |code| ==> code[i] == 0
  }

  /** Where lastep points: to the last piece, if it can be starred; else nowhere, or to a group mark. */
  ghost predicate LastIs(code: seq<byte>, ps: seq<Piece>, ep: int, lastep: int, starrable: bool) {
    if starrable then ps != [] && ps[|ps| - 1].item.Consumes() && lastep == ep - Size(ps[|ps| - 1])
    else lastep == -1 || (0 <= lastep < ep && lastep < |code| && (code[lastep] == CBRA || code[lastep] == CKET))
  }

  lemma EmittedMore(code: seq<byte>, now: seq<byte>, ps: seq<Piece>, ep: nat, p: Piece)
    requires Emitted(code, ps, ep) && |now| == |code| && ItemAt(now, ep, p) && p.Ok()
    requires now[..ep] == code[..ep] && forall i :: ep + Size(p) <= i < |now| ==> now[i] == 0
    ensures Emitted(now, ps + [p], ep + Size(p))
  {
    WrittenSame(code, now, ps, ep);
    assert (ps + [p])[..|ps|] == ps;
  }

  /** `*lastep |= STAR;` on a piece that can be starred. */
  lemma ItemStar(code: seq<byte>, now: seq<byte>, at: nat, p: Piece)
    requires ItemAt(code, at, p) && p.item.Consumes() && now == code[at := code[at] / 2 * 2 + STAR]
    ensures ItemAt(now, at, p.(star := true))
  {
    assert p.item.Class? ==> now[at + 1..at + 17] == code[at + 1..at + 17];
  }

  lemma EmittedStar(code: seq<byte>, now: seq<byte>, ps: seq<Piece>, ep: nat, at: nat)
    requires Emitted(code, ps, ep) && ps != [] && ps[|ps| - 1].item.Consumes() && at == ep - Size(ps[|ps| - 1])
    requires at < |code| && now == code[at := code[at] / 2 * 2 + STAR]
    ensures Emitted(now, SetStar(ps), ep)
  {
    hide ItemAt, BitMap;
    var p, front := ps[|ps| - 1], ps[..|ps| - 1];
    var r := SetStar(ps);
    assert r[..|ps| - 1] == front;
    ItemStar(code, now, at, p);
    WrittenSame(code, now, front, at);
  }

  method Emit1(expbuf: array<byte>, ep0: nat, op: byte, ghost ps: seq<Piece>, ghost p: Piece) returns (ep: nat)
    requires Emitted(expbuf[..], ps, ep0) && ep0 + 1 <= expbuf.Length && Size(p) == 1 && p.Ok()
    requires op == (if p.item.Dot? then CDOT + Starred(p) else CDOL)
    modifies expbuf
    ensures Emitted(expbuf[..], ps + [p], ep)
    ensures p.item.Dot? ==> LastIs(expbuf[..], ps + [p], ep, ep0, true)
  {
    ghost var was := expbuf[..];
    expbuf[ep0] := op;
    ep := ep0 + 1;
    EmittedMore(was, expbuf[..], ps, ep0, p);
  }

  /** Two bytes, of which the second may not have room: then it is not put into the buffer here. */
  method Emit2(expbuf: array<byte>, ep0: nat, op: byte, arg: byte, ghost ps: seq<Piece>, ghost p: Piece)
    returns (ep: nat, beyond: bool)
    requires Emitted(expbuf[..], ps, ep0) && ep0 < expbuf.Length && p.Ok()
    requires (p == Piece(Char(arg), false) && op == CCHR) || (p == Piece(Open(arg), false) && op == CBRA)
          || (p == Piece(Close(arg), false) && op == CKET)
    modifies expbuf
    ensures ep == ep0 + 2 && beyond == (ep > expbuf.Length) && CodeSize(ps + [p]) == ep
    ensures !beyond ==> Emitted(expbuf[..], ps + [p], ep) && expbuf[ep0] == op
    ensures forall i :: 0 <= i < ep0 ==> expbuf[i] == old(expbuf[i])
  {
    ghost var was := expbuf[..];
    assert (ps + [p])[..|ps|] == ps;
    expbuf[ep0] := op;
    ep := ep0 + 2;
    beyond := ep > expbuf.Length;
    if !beyond {
      expbuf[ep0 + 1] := arg;
      EmittedMore(was, expbuf[..], ps, ep0, p);
    }
  }

  method EmitClass(p: seq<byte>, sp0: nat, expbuf: array<byte>, ep0: nat, ghost ps: seq<Piece>)
    returns (status: Status, sp: nat, ep: nat)
    requires IsPattern(p) && sp0 <= |p| && Emitted(expbuf[..], ps, ep0) && ep0 + 17 <= expbuf.Length
    modifies expbuf
    ensures status == ClassStatus(ParseClass(p, sp0))
    ensures status.Compiled? ==> var r := ParseClass(p, sp0);
      && sp == r.next && Emitted(expbuf[..], ps + [Piece(Class(r.members), false)], ep)
      && LastIs(expbuf[..], ps + [Piece(Class(r.members), false)], ep, ep0, true)
  {
    hide Emitted, LastIs, BitMap, ParseClass;
    ghost var was := expbuf[..];
    EmittedClear(was, ps, ep0);
    expbuf[ep0] := CCL;
    ep := ep0 + 17;
    status, sp := CompileClass(p, sp0, expbuf, ep0 + 1);
    if status.Compiled? {
      assert expbuf[ep0 + 1..ep0 + 1 + 16] == expbuf[..][ep0 + 1..ep0 + 17];
      ClassEmitted(was, expbuf[..], ps, ep0, ParseClass(p, sp0).members);
    }
  }

  lemma EmittedClear(code: seq<byte>, ps: seq<Piece>, ep: nat)
    requires Emitted(code, ps, ep)
    ensures forall i :: ep <= i < |code| ==> code[i] == 0
  {
  }

  lemma ClassEmitted(was: seq<byte>, now: seq<byte>, ps: seq<Piece>, ep: nat, members: set<byte>)
    requires Emitted(was, ps, ep) && ep + 17 <= |was| == |now| && Class(members).Ok()
    requires now[ep] == CCL && now[ep + 1..ep + 17] == BitMap(members)
    requires forall i :: 0 <= i < |was| && !(ep <= i < ep + 17) ==> now[i] == was[i]
    ensures Emitted(now, ps + [Piece(Class(members), false)], ep + 17)
    ensures LastIs(now, ps + [Piece(Class(members), false)], ep + 17, ep, true)
  {
    hide BitMap, Emitted;
    EmittedClear(was, ps, ep);
    EmittedMore(was, now, ps, ep, Piece(Class(members), false));
  }

  // ----- compile

  function StatusOf(r: Parsed): Status {
    match r
    case Done(_) => Compiled
    case Refused => ReError
    case Overrun => ReadPastEnd
    case Overflow => WrittenPastEnd
    case NotModelled => Unsupported
  }

  /** The case of an asterisk. */
  method EmitAsterisk(expbuf: array<byte>, ep0: nat, lastep: int, ghost ps: seq<Piece>, ghost starrable: bool)
    returns (ep: nat, beyond: bool)
    requires Emitted(expbuf[..], ps, ep0) && LastIs(expbuf[..], ps, ep0, lastep, starrable) && ep0 < expbuf.Length
    modifies expbuf
    ensures var now := if starrable then SetStar(ps) else ps + [Piece(Char(ASTERISK), false)];
      if beyond then CodeSize(now) > expbuf.Length
      else Emitted(expbuf[..], now, ep) && LastIs(expbuf[..], now, ep, lastep, starrable)
  {
    ep, beyond := ep0, false;
    ghost var was := expbuf[..];
    if lastep == -1 || expbuf[lastep] == CBRA || expbuf[lastep] == CKET {
      assert !starrable;
      ep, beyond := Emit2(expbuf, ep, CCHR, ASTERISK, ps, Piece(Char(ASTERISK), false));
    } else {
      expbuf[lastep] := expbuf[lastep] / 2 * 2 + STAR;
      EmittedStar(was, expbuf[..], ps, ep0, lastep);
    }
  }

  /** The label `defchar`. */
  method EmitChar(expbuf: array<byte>, ep0: nat, c: byte, ghost ps: seq<Piece>) returns (ep: nat, beyond: bool)
    requires Emitted(expbuf[..], ps, ep0) && ep0 < expbuf.Length && c != 0
    modifies expbuf
    ensures beyond ==> CodeSize(ps + [Piece(Char(c), false)]) > expbuf.Length
    ensures !beyond ==> Emitted(expbuf[..], ps + [Piece(Char(c), false)], ep)
    ensures !beyond ==> LastIs(expbuf[..], ps + [Piece(Char(c), false)], ep, ep0, true)
  {
    ep, beyond := Emit2(expbuf, ep0, CCHR, c, ps, Piece(Char(c), false));
  }

  lemma EmittedSize(code: seq<byte>, ps: seq<Piece>, ep: nat)
    requires Emitted(code, ps, ep)
    ensures ep == CodeSize(ps)
  {
  }

  lemma EmittedFits(code: seq<byte>, ps: seq<Piece>, ep: nat)
    requires Emitted(code, ps, ep)
    ensures ep <= |code|
  {
  }

  lemma EmittedDone(code: seq<byte>, ps: seq<Piece>, ep: nat)
    requires Emitted(code, ps, ep) && ep < |code|
    ensures AllOk(ps) && CodeAt(code[ep := CEOF], 0, ps)
  {
    var now := code[ep := CEOF];
    WrittenSame(code, now, ps, ep);
    WrittenReads(now, ps, ep, []);
    assert ps + [] == ps;
  }

  /** The case of a group mark, after its backslash. */
  method EmitGroup(expbuf: array<byte>, ep0: nat, op: byte, k: byte, ghost ps: seq<Piece>, ghost p: Piece)
    returns (ep: nat, beyond: bool)
    requires Emitted(expbuf[..], ps, ep0) && ep0 < expbuf.Length
    requires (p == Piece(Open(k), false) && op == CBRA) || (p == Piece(Close(k), false) && op == CKET)
    modifies expbuf
    ensures beyond ==> CodeSize(ps + [p]) > expbuf.Length
    ensures !beyond ==> Emitted(expbuf[..], ps + [p], ep) && LastIs(expbuf[..], ps + [p], ep, ep0, false)
  {
    ep, beyond := Emit2(expbuf, ep0, op, k, ps, p);
  }

  /** What a step comes to, as the loop of `compile` sees it. */
  ghost predicate Steps(m: Move, status: Status, sp: nat, ps: seq<Piece>, starrable: bool, groups: nat,
                        open: seq<byte>)
  {
    match status
    case Compiled => m == On(Point(sp, ps, starrable, groups, open))
    case WrittenPastEnd => m.On? && CodeSize(m.next.ps) > ESIZE
    case _ => m.Stop? && StatusOf(m.result) == status
  }

  /** The case of a backslash, when the code is not too long yet. */
  method EmitEscape(p: seq<byte>, sp0: nat, expbuf: array<byte>, ep0: nat, groups0: nat, open0: seq<byte>,
                    ghost ps0: seq<Piece>, ghost starrable0: bool)
    returns (status: Status, sp: nat, ep: nat, groups: nat, open: seq<byte>, ghost ps: seq<Piece>,
      ghost starrable: bool)
    requires IsPattern(p) && 0 < sp0 <= |p| && p[sp0 - 1] == BACKSLASH && groups0 <= NBRA
    requires Emitted(expbuf[..], ps0, ep0) && ep0 < ESIZE == expbuf.Length && (starrable0 ==> ps0 != [])
    modifies expbuf
    ensures status.Compiled? ==>
      && sp0 < sp <= |p| && groups <= NBRA && ps != []
      && Emitted(expbuf[..], ps, ep) && LastIs(expbuf[..], ps, ep, ep0, starrable)
    ensures Steps(OneStep(p, Point(sp0 - 1, ps0, starrable0, groups0, open0)), status, sp, ps, starrable, groups, open)
  {
    hide AllOk, Emitted, ItemAt, LastIs, CodeSize;
    status, sp, ep, groups, open, ps, starrable := Compiled, sp0, ep0, groups0, open0, ps0, false;
    if sp == |p| {
      status := ReError;
      return;
    }
    var c, beyond := p[sp], false;
    sp := sp + 1;
    if IsUnmodelled(c) {
      status := Unsupported;
    } else if c == LEFT {
      if groups >= NBRA {
        status := ReError;
        return;
      }
      ghost var q := Piece(Open(groups), false);
      ep, beyond := EmitGroup(expbuf, ep, CBRA, groups, ps, q);
      open := open + [groups];
      groups := groups + 1;
      ps := ps + [q];
    } else if c == RIGHT {
      if open == [] {
        status := ReError;
        return;
      }
      ghost var q := Piece(Close(open[|open| - 1]), false);
      ep, beyond := EmitGroup(expbuf, ep, CKET, open[|open| - 1], ps, q);
      open := open[..|open| - 1];
      ps := ps + [q];
    } else {
      ep, beyond := EmitChar(expbuf, ep, c, ps);
      ps, starrable := ps + [Piece(Char(c), false)], true;
    }
    if beyond {
      status := WrittenPastEnd;
    }
  }

  /** What the rest of the pattern will come to, seen from the loop of `compile`. */
  ghost predicate Goes(r: Parsed, p: seq<byte>, status: Status, sp: int, ps: seq<Piece>, starrable: bool,
                       groups: nat, open: seq<byte>)
  {
    if status.Compiled? then
      && 0 <= sp <= |p| && groups <= NBRA && (starrable ==> ps != [])
      && ParseFrom(p, sp, ps, starrable, groups, open) == r
    else StatusOf(r) == status
  }

  /** The case of a left bracket. */
  method EmitBracket(p: seq<byte>, sp0: nat, expbuf: array<byte>, ep0: nat, ghost ps0: seq<Piece>,
                     ghost starrable0: bool, ghost groups: nat, ghost open: seq<byte>)
    returns (status: Status, sp: nat, ep: nat, ghost ps: seq<Piece>)
    requires IsPattern(p) && 0 < sp0 <= |p| && p[sp0 - 1] == BRACKET
    requires Point(sp0 - 1, ps0, starrable0, groups, open).In(p)
    requires Emitted(expbuf[..], ps0, ep0) && ep0 < ESIZE == expbuf.Length
    modifies expbuf
    ensures Steps(OneStep(p, Point(sp0 - 1, ps0, starrable0, groups, open)), status, sp, ps, true, groups, open)
    ensures status.Compiled? ==>
      sp0 < sp <= |p| && Emitted(expbuf[..], ps, ep) && LastIs(expbuf[..], ps, ep, ep0, true)
  {
    hide AllOk, Emitted, ItemAt, ParseClass, LastIs, CodeSize;
    EmittedSize(expbuf[..], ps0, ep0);
    sp, ep, ps := sp0, ep0, ps0;
    if ep + 17 >= ESIZE {
      return ReError, sp, ep, ps;
    }
    ghost var found := ParseClass(p, sp);
    status, sp, ep := EmitClass(p, sp, expbuf, ep, ps);
    if status.Compiled? {
      ps := ps + [Piece(Class(found.members), false)];
    }
  }

  /** One character of the pattern, or one class or escape. */
  method CompileOne(p: seq<byte>, sp0: nat, expbuf: array<byte>, ep0: nat, lastep0: int, groups0: nat, open0: seq<byte>,
                    ghost ps0: seq<Piece>, ghost starrable0: bool)
    returns (status: Status, sp: nat, ep: nat, lastep: int, groups: nat, open: seq<byte>,
             ghost ps: seq<Piece>, ghost starrable: bool)
    requires IsPattern(p) && sp0 < |p| && groups0 <= NBRA && (starrable0 ==> ps0 != [])
    requires Emitted(expbuf[..], ps0, ep0) && LastIs(expbuf[..], ps0, ep0, lastep0, starrable0)
    requires ep0 < ESIZE == expbuf.Length
    modifies expbuf
    ensures Steps(OneStep(p, Point(sp0, ps0, starrable0, groups0, open0)), status, sp, ps, starrable, groups, open)
    ensures status.Compiled? ==> sp0 < sp <= |p| && Emitted(expbuf[..], ps, ep)
    ensures status.Compiled? && sp < |p| ==> LastIs(expbuf[..], ps, ep, lastep, starrable)
  {
    hide AllOk, Emitted, ItemAt, ParseClass, LastIs, CodeSize, ParseFrom;
    EmittedSize(expbuf[..], ps0, ep0);
    status, sp, ep, lastep, groups, open := Compiled, sp0, ep0, lastep0, groups0, open0;
    ps, starrable := ps0, true;
    var c, beyond := p[sp], false;
    sp := sp + 1;
    if c != ASTERISK {
      lastep := ep;
    }
    if c == PERIOD {
      ep := Emit1(expbuf, ep, CDOT, ps, Piece(Dot, false));
      ps := ps + [Piece(Dot, false)];
    } else if c == ASTERISK {
      starrable := starrable0;
      ep, beyond := EmitAsterisk(expbuf, ep, lastep, ps, starrable);
      ps := if starrable then SetStar(ps) else ps + [Piece(Char(c), false)];
    } else if c == DOLLAR && sp == |p| {
      ep := Emit1(expbuf, ep, CDOL, ps, Piece(End, false));
      ps, starrable := ps + [Piece(End, false)], false;
    } else if c == BRACKET {
      status, sp, ep, ps := EmitBracket(p, sp, expbuf, ep, ps, starrable0, groups, open);
    } else if c == BACKSLASH {
      status, sp, ep, groups, open, ps, starrable := EmitEscape(p, sp, expbuf, ep, groups, open, ps, starrable0);
    } else {
      ep, beyond := EmitChar(expbuf, ep, c, ps);
      ps := ps + [Piece(Char(c), false)];
    }
    if beyond {
      status := WrittenPastEnd;
    }
  }

  /**
   * `compile`, on a cleared buffer. What is compiled fits; but a character or group mark that
   * starts at the last byte puts its second byte behind the buffer before it is refused.
   */
  method Compile(p: seq<byte>, expbuf: array<byte>) returns (status: Status, circf: bool)
    requires IsPattern(p) && expbuf.Length == ESIZE && forall i :: 0 <= i < expbuf.Length ==> expbuf[i] == 0
    modifies expbuf
    ensures status == StatusOf(Parse(p)) && circf == Anchored(p)
    ensures status.Compiled? ==> AllOk(Parse(p).pieces) && CodeAt(expbuf[..], 0, Parse(p).pieces)
  {
    var sp, ep, lastep: int := 0, 0, -1;
    circf := Anchored(p);
    if circf {
      sp := sp + 1;
    }
    var groups, open: seq<byte> := 0, [];
    ghost var ps, starrable, r := [], false, Parse(p);
    status := Compiled;
    assert Emitted(expbuf[..], ps, ep) && LastIs(expbuf[..], ps, ep, lastep, starrable);
    assert Goes(r, p, status, sp, ps, starrable, groups, open);
    hide AllOk, Emitted, LastIs, CodeAt, IsPattern, Goes, CodeSize, OneStep, Steps, ParseFrom;
    while true
      invariant 0 <= sp <= |p| && 0 <= ep && Emitted(expbuf[..], ps, ep) && 0 <= groups
      invariant sp < |p| ==> LastIs(expbuf[..], ps, ep, lastep, starrable)
      invariant status.Compiled? && Goes(r, p, status, sp, ps, starrable, groups, open)
      decreases |p| - sp
    {
      EmittedSize(expbuf[..], ps, ep);
      EmittedFits(expbuf[..], ps, ep);
      GoesDone(r, p, sp, ps, starrable, groups, open);
      if ep >= ESIZE {
        return ReError, circf;
      }
      if sp == |p| {
        EmittedDone(expbuf[..], ps, ep);
        expbuf[ep] := CEOF;
        return;
      }
      GoesNow(r, p, sp, ps, starrable, groups, open);
      ghost var was := Point(sp, ps, starrable, groups, open);
      status, sp, ep, lastep, groups, open, ps, starrable :=
        CompileOne(p, sp, expbuf, ep, lastep, groups, open, ps, starrable);
      GoesNext(r, p, was, status, sp, ps, starrable, groups, open);
      if !status.Compiled? {
        return;
      }
    }
  }

  lemma GoesNow(r: Parsed, p: seq<byte>, sp: nat, ps: seq<Piece>, starrable: bool, groups: nat, open: seq<byte>)
    requires Goes(r, p, Compiled, sp, ps, starrable, groups, open)
    ensures Point(sp, ps, starrable, groups, open).In(p)
  {
  }

  lemma GoesNext(r: Parsed, p: seq<byte>, was: Point, status: Status, sp: nat, ps: seq<Piece>, starrable: bool,
                 groups: nat, open: seq<byte>)
    requires Goes(r, p, Compiled, was.i, was.ps, was.starrable, was.groups, was.open)
    requires was.In(p) && was.i < |p| && CodeSize(was.ps) < ESIZE
    requires Steps(OneStep(p, was), status, sp, ps, starrable, groups, open)
    ensures Goes(r, p, status, sp, ps, starrable, groups, open)
  {
    hide CodeSize;
    assert was == Point(was.i, was.ps, was.starrable, was.groups, was.open);
    var m := OneStep(p, was);
    if m.On? {
      assert r == ParseFrom(p, m.next.i, m.next.ps, m.next.starrable, m.next.groups, m.next.open);
    } else {
      assert r == m.result;
    }
  }

  lemma GoesDone(r: Parsed, p: seq<byte>, sp: nat, ps: seq<Piece>, starrable: bool, groups: nat, open: seq<byte>)
    requires Goes(r, p, Compiled, sp, ps, starrable, groups, open) && CodeSize(ps) <= ESIZE
    ensures CodeSize(ps) == ESIZE ==> r == Refused
    ensures CodeSize(ps) < ESIZE && sp == |p| ==> r == Done(ps)
  {
  }

  // ----- execute

  /**
   * The search of `execute`: found says whether the pattern matches anywhere in the line, or
   * at its start if it begins with ^, and `at` is the first place where it does.
   */
  method Search(line: seq<byte>, code: seq<byte>, circf: bool, ghost t: seq<byte>, ghost ps: seq<Piece>)
    returns (found: bool, at: nat)
    requires LineHolds(line, t) && CodeAt(code, 0, ps) && AllOk(ps)
    ensures found <==> if circf then Matches(ps, t, 0) else MatchesWithin(ps, t, 0, |t|)
    ensures found ==> at <= |t| && Matches(ps, t, at) && forall k: nat :: k < at ==> circf || !Matches(ps, t, k)
  {
    at := 0;
    if circf {
      found := Advance(line, 0, code, 0, t, ps);
      return;
    }
    var more := true;
    if code[0] == CCHR {
      var c := code[1];
      while more
        invariant at <= |t| + 1 && (more <==> at <= |t|)
        invariant forall k: nat :: k < at ==> !Matches(ps, t, k)
        decreases |t| + 1 - at
      {
        if line[at] == c {
          found := Advance(line, at, code, 0, t, ps);
          if found {
            return;
          }
        } else if Matches(ps, t, at) {
          CharFirst(ps, t, at);
        }
        more := line[at] != 0;
        at := at + 1;
      }
      return false, at;
    }
    while more
      invariant at <= |t| + 1 && (more <==> at <= |t|)
      invariant forall k: nat :: k < at ==> !Matches(ps, t, k)
      decreases |t| + 1 - at
    {
      found := Advance(line, at, code, 0, t, ps);
      if found {
        return;
      }
      more := line[at] != 0;
      at := at + 1;
    }
    found := false;
  }

  /** The whole of grep on one line: whether the line, which holds the text t, matches the pattern. */
  method Grep(p: seq<byte>, line: seq<byte>, ghost t: seq<byte>) returns (status: Status, found: bool)
    requires IsPattern(p) && LineHolds(line, t)
    ensures status == StatusOf(Parse(p))
    ensures status.Compiled? ==> var ps := Parse(p).pieces;
      found <==> if Anchored(p) then Matches(ps, t, 0) else MatchesWithin(ps, t, 0, |t|)
  {
    var expbuf := new byte[ESIZE](_ => 0);
    var circf;
    found := false;
    status, circf := Compile(p, expbuf);
    if status.Compiled? {
      var at;
      found, at := Search(line, expbuf[..], circf, t, Parse(p).pieces);
    }
  }
}
