/**
 * The text of regular expressions for bin/grep.c: how a pattern is written down, and that it
 * is read back as what was meant.
 */
module RegexText {
  import opened Regex

  // ----- what is written

  /** Part of a class: a character, or, behind a hyphen, the end of a range from the character before it. */
  datatype Part = One(c: byte) | To(c: byte)
  {
    function Text(): (t: seq<byte>)
      ensures |t| > 0 && t[|t| - 1] == c
    {
      if One? then [c] else [45, c]
    }
  }

  /** A character may be written behind a backslash; `stars` is the number of asterisks behind it all. */
  datatype Term =
    | OneChar(c: byte, escaped: bool, stars: nat)
    | AnyChar(stars: nat)
    | InClass(negated: bool, parts: seq<Part>, stars: nat)
    | LineEnd
    | GroupBegin
    | GroupEnd
  {
    predicate Repeats() {
      (OneChar? || AnyChar? || InClass?) && stars > 0
    }

    /** An asterisk that stands for itself although it is not behind a backslash. */
    predicate BareAsterisk() {
      OneChar? && c == 42 && !escaped
    }
  }

  predicate SevenBit(c: byte) {
    0 < c < 128
  }

  /**
   * A right bracket may come first only; so may a hyphen, or it may come last; a circumflex may
   * not come first unless the class is negated. Nothing ranges to a right bracket.
   */
  predicate PartOk(negated: bool, parts: seq<Part>, m: nat)
    requires m < |parts|
  {
    var c := parts[m].c;
    SevenBit(c) &&
    match parts[m]
    case One(_) =>
      (c == 93 ==> m == 0) && (c == 45 ==> m == 0 || m == |parts| - 1) && (c == 94 ==> m > 0 || negated)
    case To(_) => m > 0 && c != 93
  }

  predicate PartsOk(negated: bool, parts: seq<Part>) {
    parts != [] && forall m :: 0 <= m < |parts| ==> PartOk(negated, parts, m)
  }

  /** After the first n terms an asterisk would make the last one repeat. */
  predicate Starrable(ts: seq<Term>, n: nat)
    requires n <= |ts|
  {
    n > 0 && (ts[n - 1].OneChar? || ts[n - 1].AnyChar? || ts[n - 1].InClass?) && !ts[n - 1].BareAsterisk()
  }

  /** The number of groups begun, and the groups not yet ended, after the first n terms. */
  function Begun(ts: seq<Term>, n: nat): nat
    requires n <= |ts|
  {
    if n == 0 then 0 else Begun(ts, n - 1) + if ts[n - 1].GroupBegin? then 1 else 0
  }

  /** Groups are numbered from 0 on. */
  function GroupNumber(k: nat): byte {
    if k < 256 then k else 0
  }

  function Unended(ts: seq<Term>, n: nat): (open: seq<byte>)
    requires n <= |ts|
  {
    if n == 0 then []
    else
      var open := Unended(ts, n - 1);
      if ts[n - 1].GroupBegin? then open + [GroupNumber(Begun(ts, n - 1))]
      else if ts[n - 1].GroupEnd? && open != [] then open[..|open| - 1]
      else open
  }

  /**
   * A character is itself unless it is a period, a left bracket or a backslash; but an asterisk
   * is itself where nothing can be repeated, a dollar sign where the pattern goes on, and a
   * circumflex not at the beginning, or behind the one that ties the pattern. Behind a backslash
   * it is itself unless it is a bracket of a group, a digit from 1 to 9, or < or >. `more` says
   * that more text follows than that of the terms.
   */
  predicate CharOk(tied: bool, ts: seq<Term>, n: nat, more: bool)
    requires n < |ts| && ts[n].OneChar?
  {
    var c := ts[n].c;
    && SevenBit(c)
    && if ts[n].escaped then c != 40 && c != 41 && !(49 <= c <= 57) && c != 60 && c != 62
       else
         && c != 46 && c != 91 && c != 92
         && (c == 42 ==> !Starrable(ts, n) && ts[n].stars == 0)
         && (c == 36 ==> n + 1 < |ts| || ts[n].stars > 0 || more)
         && (c == 94 ==> n > 0 || tied)
  }

  predicate TermOk(tied: bool, ts: seq<Term>, n: nat, more: bool)
    requires n < |ts|
  {
    match ts[n]
    case OneChar(_, _, _) => CharOk(tied, ts, n, more)
    case AnyChar(_) => true
    case InClass(negated, parts, _) => PartsOk(negated, parts)
    case LineEnd => n + 1 == |ts| && !more
    case GroupBegin => Begun(ts, n) < 9
    case GroupEnd => Unended(ts, n) != []
  }

  predicate WellFormed(tied: bool, ts: seq<Term>, more: bool) {
    forall n :: 0 <= n < |ts| ==> TermOk(tied, ts, n, more)
  }

  // ----- its text

  function PartsText(parts: seq<Part>): seq<byte> {
    if parts == [] then [] else PartsText(parts[..|parts| - 1]) + parts[|parts| - 1].Text()
  }

  function Stars(n: nat): (s: seq<byte>)
    ensures |s| == n && forall i :: 0 <= i < n ==> s[i] == 42
  {
    seq(n, i => 42)
  }

  function TermText(t: Term): seq<byte> {
    match t
    case OneChar(c, escaped, stars) => (if escaped then [92, c] else [c]) + Stars(stars)
    case AnyChar(stars) => [46] + Stars(stars)
    case InClass(negated, parts, stars) =>
      [91] + (if negated then [94] else []) + PartsText(parts) + [93] + Stars(stars)
    case LineEnd => [36]
    case GroupBegin => [92, 40]
    case GroupEnd => [92, 41]
  }

  function TextFrom(ts: seq<Term>, n: nat): seq<byte>
    requires n <= |ts|
    decreases |ts| - n
  {
    if n == |ts| then [] else TermText(ts[n]) + TextFrom(ts, n + 1)
  }

  /** The pattern; a circumflex before it ties it to the beginning of a line. */
  function Render(anchored: bool, ts: seq<Term>): seq<byte> {
    (if anchored then [94] else []) + TextFrom(ts, 0)
  }

  // ----- what it means

  /** The m-th part stands for itself, or for all from the character before it up to its own. */
  predicate Has(parts: seq<Part>, m: nat, x: byte)
    requires m < |parts|
  {
    match parts[m]
    case One(c) => x == c
    case To(c) => m > 0 && (x == parts[m - 1].c || parts[m - 1].c <= x <= c)
  }

  predicate AnyHas(parts: seq<Part>, n: nat, x: byte)
    requires n <= |parts|
  {
    exists m :: 0 <= m < n && Has(parts, m, x)
  }

  /** The characters of a class; NUL is in none. */
  function Members(negated: bool, parts: seq<Part>): set<byte> {
    set x: byte | 0 < x < 128 && AnyHas(parts, |parts|, x) != negated
  }

  function ItemOf(ts: seq<Term>, n: nat): Item
    requires n < |ts|
  {
    match ts[n]
    case OneChar(c, _, _) => Char(c)
    case AnyChar(_) => Dot
    case InClass(negated, parts, _) => Class(Members(negated, parts))
    case LineEnd => End
    case GroupBegin => Open(GroupNumber(Begun(ts, n)))
    case GroupEnd =>
      var open := Unended(ts, n);
      Close(if open == [] then 0 else open[|open| - 1])
  }

  function Meaning(ts: seq<Term>, n: nat): (ps: seq<Piece>)
    requires n <= |ts|
    ensures |ps| == n
  {
    if n == 0 then [] else Meaning(ts, n - 1) + [Piece(ItemOf(ts, n - 1), ts[n - 1].Repeats())]
  }

  // ----- texts at places

  /** The text t is in p at i. */
  predicate At(p: seq<byte>, i: nat, t: seq<byte>) {
    i + |t| <= |p| && p[i..i + |t|] == t
  }

  lemma {:induction false} AtSplit(p: seq<byte>, i: nat, a: seq<byte>, b: seq<byte>)
    requires At(p, i, a + b)
    ensures At(p, i, a) && At(p, i + |a|, b)
  {
    assert p[i..i + |a|] == (a + b)[..|a|] == a;
    assert p[i + |a|..i + |a| + |b|] == (a + b)[|a|..] == b;
  }

  lemma {:induction false} AtByte(p: seq<byte>, i: nat, t: seq<byte>, k: nat)
    requires At(p, i, t) && k < |t|
    ensures i + k < |p| && p[i + k] == t[k]
  {
    assert p[i..i + |t|][k] == p[i + k];
  }

  // ----- classes

  /** What the first n parts stand for. */
  function Together(parts: seq<Part>, n: nat): (s: set<byte>)
    requires n <= |parts|
    ensures forall x: byte :: x in s <==> AnyHas(parts, n, x)
  {
    set x: byte | AnyHas(parts, n, x)
  }

  /** One part more: its character, or the range up to it. */
  lemma {:induction false} TogetherNext(parts: seq<Part>, n: nat)
    requires n < |parts| && (parts[n].To? ==> n > 0)
    ensures Together(parts, n + 1) ==
      Together(parts, n) + if parts[n].One? then {parts[n].c} else Range(parts[n - 1].c, parts[n].c)
  {
    forall x: byte
      ensures x in Together(parts, n + 1) <==> x in Together(parts, n) || Has(parts, n, x)
    {
      if m :| 0 <= m < n && Has(parts, m, x) {
        assert 0 <= m < n + 1;
      }
    }
    if parts[n].To? {
      RangeIs(parts[n - 1].c, parts[n].c);
    }
  }

  lemma {:induction false} RangeIs(a: byte, b: byte)
    ensures forall x: byte :: x in Range(a, b) <==> x == a || a <= x <= b
  {
    forall x: byte
      ensures x in Range(a, b) <==> x == a || a <= x <= b
    {
      assert x in Below(a, b) <==> a <= x < b;
    }
  }

  lemma {:induction false} PartsTextNext(parts: seq<Part>, m: nat)
    requires m < |parts|
    ensures PartsText(parts[..m + 1]) == PartsText(parts[..m]) + parts[m].Text()
  {
    assert parts[..m + 1][..m] == parts[..m];
  }

  /** The texts of the first m parts come first. */
  lemma {:induction false} PartsTextGrows(parts: seq<Part>, m: nat)
    requires m <= |parts|
    ensures PartsText(parts[..m]) <= PartsText(parts)
    decreases |parts| - m
  {
    if m < |parts| {
      PartsTextNext(parts, m);
      PartsTextGrows(parts, m + 1);
    } else {
      assert parts[..m] == parts;
    }
  }

  /** Some parts of a class, which starts at `start`, have been read; the rest is. */
  lemma {:induction false} PartsRead(p: seq<byte>, start: nat, negated: bool, parts: seq<Part>, m: nat)
    requires PartsOk(negated, parts) && m < |parts| && At(p, start, PartsText(parts) + [93])
    ensures var j := start + |PartsText(parts[..m])|;
      j <= |p| && Regex.Members(p, start, j, Together(parts, m)) ==
        ClassText(Together(parts, |parts|), start + |PartsText(parts)| + 1)
    decreases |parts| - m
  {
    hide PartsOk, Together, PartsText;
    PartRead(p, start, negated, parts, m);
    PartsTextNext(parts, m);
    if m + 1 < |parts| {
      PartsRead(p, start, negated, parts, m + 1);
    } else {
      assert parts[..m + 1] == parts;
      AtByte(p, start, PartsText(parts) + [93], |PartsText(parts)|);
    }
  }

  /** Where the text of the m-th part is, and what comes before and after it. */
  lemma {:induction false} PartAt(p: seq<byte>, start: nat, parts: seq<Part>, m: nat)
    requires m < |parts| && At(p, start, PartsText(parts) + [93])
    ensures var j := start + |PartsText(parts[..m])|;
      && At(p, j, parts[m].Text()) && j + |parts[m].Text()| < |p|
      && (m == 0 <==> j == start) && (m > 0 ==> p[j - 1] == parts[m - 1].c)
      && (m + 1 == |parts| ==> p[j + |parts[m].Text()|] == 93)
      && (m + 1 < |parts| ==> p[j + |parts[m].Text()|] == parts[m + 1].Text()[0])
  {
    hide PartsText, Part.Text;
    var before, own := PartsText(parts[..m]), parts[m].Text();
    var rest := BehindPart(parts, m);
    var text := PartsText(parts) + [93];
    assert text == before + (own + (rest + [93]));
    AtSplit(p, start, before, own + (rest + [93]));
    AtSplit(p, start + |before|, own, rest + [93]);
    AtByte(p, start + |before| + |own|, rest + [93], 0);
    if m == 0 {
      assert before == [] by {
        NoParts(parts);
      }
    } else {
      PartsTextNext(parts, m - 1);
      AtByte(p, start, text, |before| - 1);
    }
  }

  lemma NoParts(parts: seq<Part>)
    ensures PartsText(parts[..0]) == []
  {
  }

  /** What follows the m-th part. */
  lemma {:induction false} BehindPart(parts: seq<Part>, m: nat) returns (rest: seq<byte>)
    requires m < |parts|
    ensures PartsText(parts) == PartsText(parts[..m]) + parts[m].Text() + rest
    ensures if m + 1 == |parts| then rest == [] else rest != [] && rest[0] == parts[m + 1].Text()[0]
  {
    hide PartsText, Part.Text;
    PartsTextNext(parts, m);
    PartsTextGrows(parts, m + 1);
    var all, upto := PartsText(parts), PartsText(parts[..m + 1]);
    rest := all[|upto|..];
    if m + 1 < |parts| {
      PartsTextNext(parts, m + 1);
      PartsTextGrows(parts, m + 2);
      var more := PartsText(parts[..m + 2]);
      assert all[|upto|] == more[|upto|] == parts[m + 1].Text()[0];
    } else {
      assert parts[..m + 1] == parts;
    }
  }

  /** One part is read. */
  lemma {:induction false} PartRead(p: seq<byte>, start: nat, negated: bool, parts: seq<Part>, m: nat)
    requires PartsOk(negated, parts) && m < |parts| && At(p, start, PartsText(parts) + [93])
    ensures var j := start + |PartsText(parts[..m])|;
      && j + |parts[m].Text()| < |p|
      && Regex.Members(p, start, j, Together(parts, m)) ==
         NextMember(p, start, j + |parts[m].Text()|, Together(parts, m + 1))
      && (m + 1 < |parts| ==> p[j + |parts[m].Text()|] != 93)
  {
    hide Together, PartsText, Range, NextMember;
    var e, j := parts[m], start + |PartsText(parts[..m])|;
    PartAt(p, start, parts, m);
    AtByte(p, j, e.Text(), 0);
    assert PartOk(negated, parts, m);
    TogetherNext(parts, m);
    if e.To? {
      AtByte(p, j, e.Text(), 1);
    }
    if m + 1 < |parts| {
      assert PartOk(negated, parts, m + 1);
    }
  }

  /** The text of a class behind its left bracket. */
  function ClassBody(negated: bool, parts: seq<Part>): seq<byte> {
    (if negated then [94] else []) + PartsText(parts) + [93]
  }

  lemma {:induction false} ClassRead(p: seq<byte>, i: nat, negated: bool, parts: seq<Part>)
    requires PartsOk(negated, parts) && At(p, i, ClassBody(negated, parts))
    ensures i <= |p| && ParseClass(p, i) == ClassText(Members(negated, parts), i + |ClassBody(negated, parts)|)
  {
    hide ParseClass, Members, Complement;
    var text := PartsText(parts) + [93];
    assert parts[..0] == [] && PartsText([]) == [] && Together(parts, 0) == {};
    ClassSet(negated, parts);
    if negated {
      assert ClassBody(negated, parts) == [94] + text;
      AtSplit(p, i, [94], text);
      AtByte(p, i, [94], 0);
      PartsRead(p, i + 1, negated, parts, 0);
    } else {
      assert ClassBody(negated, parts) == text;
      PartsRead(p, i, negated, parts, 0);
      PartAt(p, i, parts, 0);
      AtByte(p, i, parts[0].Text(), 0);
      assert PartOk(negated, parts, 0);
    }
    BehindCircumflex(p, i);
  }

  lemma BehindCircumflex(p: seq<byte>, i: nat)
    requires i < |p|
    ensures ParseClass(p, i) ==
      if p[i] != 94 then Regex.Members(p, i, i, {})
      else
        match Regex.Members(p, i + 1, i + 1, {})
        case ClassText(members, next) => ClassText(Complement(members), next)
        case other => other
  {
  }

  lemma {:induction false} ClassSet(negated: bool, parts: seq<Part>)
    requires PartsOk(negated, parts)
    ensures Members(negated, parts) ==
      if negated then Complement(Together(parts, |parts|)) else Together(parts, |parts|)
  {
    forall x: byte | AnyHas(parts, |parts|, x)
      ensures 0 < x < 128
    {
      var m :| 0 <= m < |parts| && Has(parts, m, x);
      assert PartOk(negated, parts, m) && (m > 0 ==> PartOk(negated, parts, m - 1));
    }
  }

  // ----- terms

  lemma {:induction false} SetStarSize(ps: seq<Piece>)
    requires ps != []
    ensures CodeSize(SetStar(ps)) == CodeSize(ps)
  {
    assert SetStar(ps)[..|ps| - 1] == ps[..|ps| - 1];
  }

  /** Asterisks behind a piece that can be repeated. */
  lemma {:induction false} StarsRead(p: seq<byte>, i: nat, k: nat, ps: seq<Piece>, groups: nat, open: seq<byte>)
    requires ps != [] && At(p, i, Stars(k)) && CodeSize(ps) < ESIZE && groups <= NBRA
    ensures i + k <= |p|
    ensures ParseFrom(p, i, ps, true, groups, open) ==
      ParseFrom(p, i + k, if k > 0 then SetStar(ps) else ps, true, groups, open)
    decreases k
  {
    hide CodeSize, ParseFrom, SetStar;
    if k > 0 {
      AtByte(p, i, Stars(k), 0);
      assert Stars(k) == [42] + Stars(k - 1);
      AtSplit(p, i, [42], Stars(k - 1));
      SetStarSize(ps);
      StarRead(p, i, ps, groups, open);
      StarsRead(p, i + 1, k - 1, SetStar(ps), groups, open);
      SetStarTwice(ps);
    }
  }

  lemma SetStarTwice(ps: seq<Piece>)
    requires ps != []
    ensures SetStar(SetStar(ps)) == SetStar(ps)
  {
  }

  lemma StarRead(p: seq<byte>, i: nat, ps: seq<Piece>, groups: nat, open: seq<byte>)
    requires ps != [] && i < |p| && p[i] == 42 && CodeSize(ps) < ESIZE && groups <= NBRA
    ensures ParseFrom(p, i, ps, true, groups, open) == ParseFrom(p, i + 1, SetStar(ps), true, groups, open)
  {
    hide CodeSize, SetStar;
  }

  lemma TextNotEmpty(t: Term)
    ensures |TermText(t)| > 0
  {
  }

  /** What stands before the asterisks of a term. */
  function Head(t: Term): (s: seq<byte>)
    ensures |s| > 0
  {
    match t
    case OneChar(c, escaped, _) => if escaped then [92, c] else [c]
    case AnyChar(_) => [46]
    case InClass(negated, parts, _) => [91] + ClassBody(negated, parts)
    case LineEnd => [36]
    case GroupBegin => [92, 40]
    case GroupEnd => [92, 41]
  }

  function StarsOf(t: Term): nat {
    match t
    case OneChar(_, _, stars) => stars
    case AnyChar(stars) => stars
    case InClass(_, _, stars) => stars
    case _ => 0
  }

  lemma {:induction false} HeadAndStars(t: Term)
    ensures TermText(t) == Head(t) + Stars(StarsOf(t))
  {
    if t.InClass? {
      assert TermText(t) == [91] + ClassBody(t.negated, t.parts) + Stars(t.stars);
    }
  }

  /** The state in which the n-th term is come to. */
  predicate Comes(p: seq<byte>, tied: bool, ts: seq<Term>, n: nat, i: nat) {
    && WellFormed(tied, ts, false) && n < |ts|
    && i + |TextFrom(ts, n)| == |p| && At(p, i, TextFrom(ts, n))
    && CodeSize(Meaning(ts, n + 1)) < ESIZE && Begun(ts, n) <= NBRA
  }

  lemma {:induction false} MeaningNext(ts: seq<Term>, n: nat)
    requires n < |ts|
    ensures CodeSize(Meaning(ts, n + 1)) == CodeSize(Meaning(ts, n)) + Size(Piece(ItemOf(ts, n), false))
    ensures CodeSize(Meaning(ts, n) + [Piece(ItemOf(ts, n), false)]) == CodeSize(Meaning(ts, n + 1))
  {
    hide ItemOf;
    var ps := Meaning(ts, n);
    assert (ps + [Piece(ItemOf(ts, n), false)])[..n] == ps;
    assert Meaning(ts, n + 1)[..n] == ps;
  }

  /** Everything of a term but its asterisks is read. */
  lemma {:induction false} HeadRead(p: seq<byte>, tied: bool, ts: seq<Term>, n: nat, i: nat)
    requires Comes(p, tied, ts, n, i)
    ensures i + |Head(ts[n])| <= |p| && Begun(ts, n + 1) <= NBRA
    ensures ParseFrom(p, i, Meaning(ts, n), Starrable(ts, n), Begun(ts, n), Unended(ts, n)) ==
      ParseFrom(p, i + |Head(ts[n])|, Meaning(ts, n) + [Piece(ItemOf(ts, n), false)], Starrable(ts, n + 1),
                Begun(ts, n + 1), Unended(ts, n + 1))
  {
    hide CodeSize, Meaning, TextFrom;
    var t, ps := ts[n], Meaning(ts, n);
    MeaningNext(ts, n);
    TextNext(p, ts, n, i);
    var head := Head(t);
    AtByte(p, i, head, 0);
    if |head| > 1 {
      AtByte(p, i, head, 1);
    }
    assert TermOk(tied, ts, n, false);
    HeadStep(p, tied, ts, n, false, i);
    StepOn(p, PointAt(ts, n, i), PointBehind(ts, n, i));
  }

  lemma StepOn(p: seq<byte>, at: Point, next: Point)
    requires at.In(p) && at.i < |p| && CodeSize(at.ps) < ESIZE && OneStep(p, at) == On(next)
    ensures next.In(p) && From(p, at) == From(p, next)
  {
    hide OneStep, CodeSize;
  }

  /** The text of the n-th term and what comes after it. */
  lemma {:induction false} TextNext(p: seq<byte>, ts: seq<Term>, n: nat, i: nat)
    requires n < |ts| && i + |TextFrom(ts, n)| == |p| && At(p, i, TextFrom(ts, n))
    ensures At(p, i, Head(ts[n])) && At(p, i + |Head(ts[n])|, Stars(StarsOf(ts[n])))
    ensures var next := i + |Head(ts[n])| + StarsOf(ts[n]);
      next + |TextFrom(ts, n + 1)| == |p| && At(p, next, TextFrom(ts, n + 1))
    ensures n + 1 < |ts| <==> |TextFrom(ts, n + 1)| > 0
  {
    hide Head, StarsOf;
    var t := ts[n];
    HeadAndStars(t);
    AtSplit(p, i, TermText(t), TextFrom(ts, n + 1));
    AtSplit(p, i, Head(t), Stars(StarsOf(t)));
    if n + 1 < |ts| {
      TextNotEmpty(ts[n + 1]);
    }
  }

  /** The point at which the n-th term is read, and the one after everything of it but its asterisks. */
  function PointAt(ts: seq<Term>, n: nat, i: nat): Point
    requires n <= |ts|
  {
    Point(i, Meaning(ts, n), Starrable(ts, n), Begun(ts, n), Unended(ts, n))
  }

  function PointBehind(ts: seq<Term>, n: nat, i: nat): Point
    requires n < |ts|
  {
    Point(i + |Head(ts[n])|, Meaning(ts, n) + [Piece(ItemOf(ts, n), false)], Starrable(ts, n + 1), Begun(ts, n + 1),
          Unended(ts, n + 1))
  }

  lemma {:induction false} HeadStep(p: seq<byte>, tied: bool, ts: seq<Term>, n: nat, more: bool, i: nat)
    requires n < |ts| && TermOk(tied, ts, n, more) && At(p, i, Head(ts[n])) && i < |p| && p[i] == Head(ts[n])[0]
    requires |Head(ts[n])| > 1 ==> i + 1 < |p| && p[i + 1] == Head(ts[n])[1]
    requires ts[n].LineEnd? ==> i + 1 == |p|
    requires ts[n].OneChar? && ts[n].c == 36 && !ts[n].escaped ==> i + 1 < |p|
    requires (ts[n].InClass? ==> CodeSize(Meaning(ts, n)) + 17 < ESIZE) && Begun(ts, n) <= NBRA
    ensures i + |Head(ts[n])| <= |p| && Begun(ts, n + 1) <= NBRA
    ensures OneStep(p, PointAt(ts, n, i)) == On(PointBehind(ts, n, i))
  {
    hide CodeSize, Meaning, Members, ParseClass;
    match ts[n]
    case OneChar(_, _, _) => CharStep(p, tied, ts, n, more, i);
    case AnyChar(_) =>
    case InClass(_, _, _) => ClassStep(p, tied, ts, n, more, i);
    case LineEnd =>
    case GroupBegin =>
    case GroupEnd =>
  }

  lemma {:induction false} CharStep(p: seq<byte>, tied: bool, ts: seq<Term>, n: nat, more: bool, i: nat)
    requires n < |ts| && ts[n].OneChar? && CharOk(tied, ts, n, more)
    requires i + |Head(ts[n])| <= |p| && p[i] == Head(ts[n])[0]
    requires |Head(ts[n])| > 1 ==> p[i + 1] == Head(ts[n])[1]
    requires ts[n].c == 36 && !ts[n].escaped ==> i + 1 < |p|
    requires Begun(ts, n) <= NBRA
    ensures OneStep(p, PointAt(ts, n, i)) == On(PointBehind(ts, n, i))
  {
    hide CodeSize, Meaning, ParseClass;
  }

  lemma {:induction false} ClassStep(p: seq<byte>, tied: bool, ts: seq<Term>, n: nat, more: bool, i: nat)
    requires n < |ts| && ts[n].InClass? && TermOk(tied, ts, n, more) && At(p, i, Head(ts[n])) && i < |p| && p[i] == 91
    requires CodeSize(Meaning(ts, n)) + 17 < ESIZE && Begun(ts, n) <= NBRA
    ensures OneStep(p, PointAt(ts, n, i)) == On(PointBehind(ts, n, i))
  {
    hide CodeSize, Meaning, Members, ParseClass, ClassBody;
    AtSplit(p, i, [91], ClassBody(ts[n].negated, ts[n].parts));
    ClassRead(p, i + 1, ts[n].negated, ts[n].parts);
  }

  /** A whole term is read. */
  lemma {:induction false} TermRead(p: seq<byte>, tied: bool, ts: seq<Term>, n: nat, i: nat)
    requires Comes(p, tied, ts, n, i)
    ensures i + |TermText(ts[n])| <= |p| && Begun(ts, n + 1) <= NBRA
    ensures ParseFrom(p, i, Meaning(ts, n), Starrable(ts, n), Begun(ts, n), Unended(ts, n)) ==
      ParseFrom(p, i + |TermText(ts[n])|, Meaning(ts, n + 1), Starrable(ts, n + 1), Begun(ts, n + 1),
                Unended(ts, n + 1))
  {
    hide CodeSize, ParseFrom, TextFrom, ItemOf, TermText, Head, Comes;
    ComesTo(p, tied, ts, n, i);
    var t, ps := ts[n], Meaning(ts, n) + [Piece(ItemOf(ts, n), false)];
    HeadRead(p, tied, ts, n, i);
    HeadAndStars(t);
    TextNext(p, ts, n, i);
    MeaningNext(ts, n);
    if StarsOf(t) == 0 {
      assert Meaning(ts, n + 1) == ps;
    } else {
      StarredTerm(tied, ts, n);
      StarsRead(p, i + |Head(t)|, StarsOf(t), ps, Begun(ts, n + 1), Unended(ts, n + 1));
      assert Meaning(ts, n + 1) == SetStar(ps);
    }
  }

  lemma ComesTo(p: seq<byte>, tied: bool, ts: seq<Term>, n: nat, i: nat)
    requires Comes(p, tied, ts, n, i)
    ensures WellFormed(tied, ts, false) && n < |ts| && i + |TextFrom(ts, n)| == |p| && At(p, i, TextFrom(ts, n))
    ensures CodeSize(Meaning(ts, n + 1)) < ESIZE
  {
  }

  lemma StarredTerm(tied: bool, ts: seq<Term>, n: nat)
    requires WellFormed(tied, ts, false) && n < |ts| && StarsOf(ts[n]) > 0
    ensures Starrable(ts, n + 1) && ts[n].Repeats()
  {
    assert TermOk(tied, ts, n, false);
  }

  lemma {:induction false} SizesGrow(ts: seq<Term>, n: nat)
    requires n <= |ts|
    ensures CodeSize(Meaning(ts, n)) <= CodeSize(Meaning(ts, |ts|))
    decreases |ts| - n
  {
    if n < |ts| {
      MeaningNext(ts, n);
      SizesGrow(ts, n + 1);
    }
  }

  /** The terms from the n-th on are read. */
  lemma {:induction false} RestRead(p: seq<byte>, tied: bool, ts: seq<Term>, n: nat, i: nat)
    requires WellFormed(tied, ts, false) && n <= |ts| && CodeSize(Meaning(ts, |ts|)) < ESIZE && Begun(ts, n) <= NBRA
    requires i + |TextFrom(ts, n)| == |p| && At(p, i, TextFrom(ts, n))
    ensures ParseFrom(p, i, Meaning(ts, n), Starrable(ts, n), Begun(ts, n), Unended(ts, n)) == Done(Meaning(ts, |ts|))
    decreases |ts| - n
  {
    hide CodeSize, Meaning, WellFormed, At, ParseFrom, TermText, Starrable, Begun, Unended;
    if n == |ts| {
      NothingLeft(p, ts);
    } else {
      SizesGrow(ts, n + 1);
      assert Comes(p, tied, ts, n, i);
      TermRead(p, tied, ts, n, i);
      AtSplit(p, i, TermText(ts[n]), TextFrom(ts, n + 1));
      RestRead(p, tied, ts, n + 1, i + |TermText(ts[n])|);
    }
  }

  lemma {:induction false} NothingLeft(p: seq<byte>, ts: seq<Term>)
    requires CodeSize(Meaning(ts, |ts|)) < ESIZE && Begun(ts, |ts|) <= NBRA
    ensures ParseFrom(p, |p|, Meaning(ts, |ts|), Starrable(ts, |ts|), Begun(ts, |ts|), Unended(ts, |ts|)) ==
      Done(Meaning(ts, |ts|))
  {
    hide CodeSize, Meaning, Unended;
  }

  /** Only a pattern that is tied begins with a circumflex. */
  lemma {:induction false} TiedOnlyThen(anchored: bool, ts: seq<Term>)
    requires WellFormed(anchored, ts, false)
    ensures Anchored(Render(anchored, ts)) == anchored
  {
    if !anchored && ts != [] {
      assert TermOk(anchored, ts, 0, false);
      HeadAndStars(ts[0]);
      assert Render(anchored, ts)[0] == Head(ts[0])[0];
    }
  }

  /**
   * A pattern that is written down in this way is read back as what was meant, if its code fits
   * the buffer.
   */
  lemma {:induction false} RenderedIsRead(anchored: bool, ts: seq<Term>)
    requires WellFormed(anchored, ts, false) && CodeSize(Meaning(ts, |ts|)) < ESIZE
    ensures Anchored(Render(anchored, ts)) == anchored
    ensures Parse(Render(anchored, ts)) == Done(Meaning(ts, |ts|))
  {
    hide WellFormed, TextFrom, ParseFrom, CodeSize, Meaning, Anchored, Starrable, Begun, Unended;
    TiedOnlyThen(anchored, ts);
    var p, i: nat := Render(anchored, ts), if anchored then 1 else 0;
    assert p[i..] == TextFrom(ts, 0);
    assert At(p, i, TextFrom(ts, 0));
    AtFirst(ts);
    RestRead(p, anchored, ts, 0, i);
  }

  lemma AtFirst(ts: seq<Term>)
    ensures Meaning(ts, 0) == [] && !Starrable(ts, 0) && Begun(ts, 0) == 0 && Unended(ts, 0) == []
  {
  }

  // ----- every pattern is written down in this way

  /** What has been said of the first n terms only depends on them. */
  lemma {:induction false} SameStart(a: seq<Term>, b: seq<Term>, n: nat)
    requires n <= |a| && n <= |b| && forall k :: 0 <= k < n ==> a[k] == b[k]
    ensures Starrable(a, n) == Starrable(b, n) && Begun(a, n) == Begun(b, n) && Unended(a, n) == Unended(b, n)
    ensures Meaning(a, n) == Meaning(b, n)
  {
    if n > 0 {
      SameStart(a, b, n - 1);
    }
  }

  lemma {:induction false} SameTermOk(tied: bool, a: seq<Term>, b: seq<Term>, n: nat, more: bool)
    requires n < |a| && n < |b| && (forall k :: 0 <= k <= n ==> a[k] == b[k]) && (n + 1 < |b| || more)
    requires TermOk(tied, a, n, true)
    ensures TermOk(tied, b, n, more)
  {
    SameStart(a, b, n);
  }

  lemma Associate(a: seq<byte>, b: seq<byte>, c: seq<byte>)
    ensures a + (b + c) == (a + b) + c
  {
  }

  lemma {:induction false} TextMore(ts: seq<Term>, t: Term, n: nat)
    requires n <= |ts|
    ensures TextFrom(ts + [t], n) == TextFrom(ts, n) + TermText(t)
    decreases |ts| - n
  {
    hide TermText;
    if n < |ts| {
      TextMore(ts, t, n + 1);
      Associate(TermText(ts[n]), TextFrom(ts, n + 1), TermText(t));
    } else {
      assert TextFrom(ts + [t], n + 1) == [];
    }
  }

  /** The pattern has been read up to i, and the terms tell what it said. */
  predicate ReadUpto(p: seq<byte>, tied: bool, ts: seq<Term>, i: nat) {
    && i <= |p| && p[..i] == Render(tied, ts)
    && WellFormed(tied, ts, i < |p|) && Begun(ts, |ts|) <= NBRA
  }

  /** A term without asterisks comes next. */
  lemma {:induction false} TermFound(p: seq<byte>, tied: bool, ts: seq<Term>, i: nat, t: Term)
    requires ReadUpto(p, tied, ts, i) && i < |p| && StarsOf(t) == 0 && At(p, i, Head(t))
    requires TermOk(tied, ts + [t], |ts|, i + |Head(t)| < |p|)
    requires t.InClass? ==> CodeSize(Meaning(ts, |ts|)) + 17 < ESIZE
    requires t.LineEnd? ==> i + 1 == |p|
    requires t.OneChar? && t.c == 36 && !t.escaped ==> i + 1 < |p|
    ensures var now, next := ts + [t], i + |Head(t)|;
      && ReadUpto(p, tied, now, next)
      && OneStep(p, PointAt(ts, |ts|, i)) == On(PointAt(now, |now|, next))
  {
    hide WellFormed, Render, OneStep, PointAt, TermOk, CodeSize, Head, Meaning, ItemOf;
    StepFound(p, tied, ts, i, t);
    TextFound(p, tied, ts, i, t);
  }

  lemma {:induction false} StepFound(p: seq<byte>, tied: bool, ts: seq<Term>, i: nat, t: Term)
    requires i < |p| && Begun(ts, |ts|) <= NBRA && StarsOf(t) == 0 && At(p, i, Head(t))
    requires TermOk(tied, ts + [t], |ts|, i + |Head(t)| < |p|)
    requires t.InClass? ==> CodeSize(Meaning(ts, |ts|)) + 17 < ESIZE
    requires t.LineEnd? ==> i + 1 == |p|
    requires t.OneChar? && t.c == 36 && !t.escaped ==> i + 1 < |p|
    ensures var now, next := ts + [t], i + |Head(t)|;
      && OneStep(p, PointAt(ts, |ts|, i)) == On(PointAt(now, |now|, next)) && Begun(now, |now|) <= NBRA
  {
    hide CodeSize, Head, Meaning, ItemOf, Starrable, Begun, Unended, TermOk, OneStep;
    var now, n := ts + [t], |ts|;
    SameStart(ts, now, n);
    AtByte(p, i, Head(t), 0);
    if |Head(t)| > 1 {
      AtByte(p, i, Head(t), 1);
    }
    HeadStep(p, tied, now, n, i + |Head(t)| < |p|, i);
    NoAsterisks(now, n);
  }

  lemma {:induction false} TextFound(p: seq<byte>, tied: bool, ts: seq<Term>, i: nat, t: Term)
    requires ReadUpto(p, tied, ts, i) && i < |p| && StarsOf(t) == 0 && At(p, i, Head(t))
    requires TermOk(tied, ts + [t], |ts|, i + |Head(t)| < |p|) && Begun(ts + [t], |ts| + 1) <= NBRA
    ensures ReadUpto(p, tied, ts + [t], i + |Head(t)|)
  {
    hide TermOk, Head, TextFrom, TermText, Begun;
    var next := i + |Head(t)|;
    HeadAndStars(t);
    assert TermText(t) == Head(t);
    TextMore(ts, t, 0);
    assert p[..next] == p[..i] + Head(t);
    AllTermsOk(tied, ts, t, next < |p|);
  }

  lemma NoAsterisks(ts: seq<Term>, n: nat)
    requires n < |ts| && StarsOf(ts[n]) == 0
    ensures Meaning(ts, n + 1) == Meaning(ts, n) + [Piece(ItemOf(ts, n), false)]
  {
  }

  lemma {:induction false} AllTermsOk(tied: bool, ts: seq<Term>, t: Term, more: bool)
    requires WellFormed(tied, ts, true) && TermOk(tied, ts + [t], |ts|, more)
    ensures WellFormed(tied, ts + [t], more)
  {
    var now := ts + [t];
    forall k | 0 <= k < |now|
      ensures TermOk(tied, now, k, more)
    {
      if k < |ts| {
        assert TermOk(tied, ts, k, true);
        SameTermOk(tied, ts, now, k, more);
      }
    }
  }

  /** The last term with one asterisk more. */
  function Repeated(t: Term): Term {
    match t
    case OneChar(c, escaped, stars) => OneChar(c, escaped, stars + 1)
    case AnyChar(stars) => AnyChar(stars + 1)
    case InClass(negated, parts, stars) => InClass(negated, parts, stars + 1)
    case other => other
  }

  lemma {:induction false} AsteriskFound(p: seq<byte>, tied: bool, ts: seq<Term>, i: nat)
    requires ReadUpto(p, tied, ts, i) && i < |p| && p[i] == 42 && Starrable(ts, |ts|)
    ensures var now := ts[..|ts| - 1] + [Repeated(ts[|ts| - 1])];
      && ReadUpto(p, tied, now, i + 1)
      && OneStep(p, PointAt(ts, |ts|, i)) == On(PointAt(now, |now|, i + 1))
  {
    hide TextFrom, TermText, Meaning, Begun, Unended;
    var n, front, t := |ts| - 1, ts[..|ts| - 1], ts[|ts| - 1];
    var now := front + [Repeated(t)];
    SameStart(ts, front, n);
    SameStart(now, front, n);
    assert ts == front + [t];
    TextMore(front, t, 0);
    TextMore(front, Repeated(t), 0);
    assert TermText(Repeated(t)) == TermText(t) + [42] by {
      OneAsteriskMore(t);
    }
    assert p[..i + 1] == p[..i] + [42];
    RepeatedMeans(ts, now);
    RepeatedOk(tied, ts, now, i + 1 < |p|);
  }

  lemma {:induction false} OneAsteriskMore(t: Term)
    requires t.OneChar? || t.AnyChar? || t.InClass?
    ensures TermText(Repeated(t)) == TermText(t) + [42]
  {
    assert Stars(StarsOf(t) + 1) == Stars(StarsOf(t)) + [42];
    HeadAndStars(t);
    HeadAndStars(Repeated(t));
  }

  lemma {:induction false} RepeatedMeans(ts: seq<Term>, now: seq<Term>)
    requires ts != [] && Starrable(ts, |ts|) && now == ts[..|ts| - 1] + [Repeated(ts[|ts| - 1])]
    ensures Meaning(now, |now|) == SetStar(Meaning(ts, |ts|)) && Starrable(now, |now|)
    ensures Begun(now, |now|) == Begun(ts, |ts|) && Unended(now, |now|) == Unended(ts, |ts|)
  {
    SameStart(ts, now, |ts| - 1);
  }

  lemma {:induction false} RepeatedOk(tied: bool, ts: seq<Term>, now: seq<Term>, more: bool)
    requires WellFormed(tied, ts, true) && Starrable(ts, |ts|) && now == ts[..|ts| - 1] + [Repeated(ts[|ts| - 1])]
    ensures WellFormed(tied, now, more)
  {
    var last := |ts| - 1;
    forall k | 0 <= k < |now|
      ensures TermOk(tied, now, k, more)
    {
      assert TermOk(tied, ts, k, true);
      if k < last {
        SameTermOk(tied, ts, now, k, more);
      } else {
        SameStart(ts, now, last);
      }
    }
  }

  // ----- classes again

  /** The parts of a class as far as it has been read: another one follows. */
  predicate PartsSoFar(negated: bool, parts: seq<Part>) {
    forall m :: 0 <= m < |parts| ==> PartOk(negated, parts + [One(65)], m)
  }

  lemma {:induction false} SamePart(negated: bool, a: seq<Part>, b: seq<Part>, m: nat)
    requires m + 1 < |a| && m < |b| && a[m] == b[m] && PartOk(negated, a, m)
    ensures PartOk(negated, b, m)
  {
  }

  lemma {:induction false} SameTogether(a: seq<Part>, b: seq<Part>, n: nat)
    requires n <= |a| && n <= |b| && forall k :: 0 <= k < n ==> a[k] == b[k]
    ensures Together(a, n) == Together(b, n)
  {
    forall x: byte
      ensures AnyHas(a, n, x) <==> AnyHas(b, n, x)
    {
      forall m | 0 <= m < n
        ensures Has(a, m, x) <==> Has(b, m, x)
      {
      }
    }
  }

  /** The part that comes next. */
  function PartHere(p: seq<byte>, start: nat, j: nat): Part
    requires start <= j < |p|
  {
    if p[j] == 45 && j > start && j + 1 < |p| && p[j + 1] != 93 then To(p[j + 1]) else One(p[j])
  }

  /** One part more is found. */
  lemma {:induction false} PartFound(p: seq<byte>, start: nat, j: nat, negated: bool, parts: seq<Part>)
    requires IsPattern(p) && start <= j <= |p| && (j == start <==> parts == []) && p[start..j] == PartsText(parts)
    requires PartsSoFar(negated, parts) && (j > start && j < |p| ==> p[j] != 93)
    requires j == start && !negated && j < |p| ==> p[j] != 94
    requires Regex.Members(p, start, j, Together(parts, |parts|)).ClassText?
    ensures j < |p| && var e := PartHere(p, start, j);
      var more, n := parts + [e], j + |e.Text()|;
      && n <= |p| && p[start..n] == PartsText(more)
      && (forall m :: 0 <= m < |more| ==> PartOk(negated, more, m))
      && (e.One? && e.c == 45 && |parts| > 0 ==> n < |p| && p[n] == 93)
      && Regex.Members(p, start, j, Together(parts, |parts|)) == NextMember(p, start, n, Together(more, |more|))
  {
    hide Together, PartsText, Range, NextMember;
    var e := PartHere(p, start, j);
    var more, n := parts + [e], j + |e.Text()|;
    assert more[..|parts|] == parts && more[..|parts| + 1] == more;
    PartsTextNext(more, |parts|);
    assert p[start..n] == p[start..j] + e.Text();
    if parts != [] {
      LastChar(parts);
      assert p[start..j][j - start - 1] == p[j - 1];
    }
    TogetherNext(more, |parts|);
    SameTogether(more, parts, |parts|);
    forall m | 0 <= m < |more|
      ensures PartOk(negated, more, m)
    {
      if m < |parts| {
        assert PartOk(negated, parts + [One(65)], m);
        SamePart(negated, parts + [One(65)], more, m);
      }
    }
  }

  lemma {:induction false} LastChar(parts: seq<Part>)
    requires parts != []
    ensures PartsText(parts) != [] && PartsText(parts)[|PartsText(parts)| - 1] == parts[|parts| - 1].c
  {
    hide Part.Text;
    var own := parts[|parts| - 1].Text();
    assert PartsText(parts) == PartsText(parts[..|parts| - 1]) + own;
  }

  /** A class that is read has been written as one. */
  lemma {:induction false} PartsFound(p: seq<byte>, start: nat, j: nat, negated: bool, parts: seq<Part>)
    returns (all: seq<Part>)
    requires IsPattern(p) && start <= j <= |p| && (j == start <==> parts == []) && p[start..j] == PartsText(parts)
    requires PartsSoFar(negated, parts) && (j > start && j < |p| ==> p[j] != 93)
    requires j == start && !negated && j < |p| ==> p[j] != 94
    requires Regex.Members(p, start, j, Together(parts, |parts|)).ClassText?
    ensures PartsOk(negated, all)
    ensures var r := Regex.Members(p, start, j, Together(parts, |parts|));
      r.next == start + |PartsText(all)| + 1 && p[start..r.next] == PartsText(all) + [93]
    decreases |p| - j
  {
    hide Together, PartsText, PartHere;
    PartFound(p, start, j, negated, parts);
    var e := PartHere(p, start, j);
    var more, n := parts + [e], j + |e.Text()|;
    if n < |p| && p[n] == 93 {
      all := more;
      assert p[start..n + 1] == p[start..n] + [93];
    } else {
      forall m | 0 <= m < |more|
        ensures PartOk(negated, more + [One(65)], m)
      {
        assert PartOk(negated, more, m);
      }
      all := PartsFound(p, start, n, negated, more);
    }
  }

  lemma {:induction false} ClassFound(p: seq<byte>, i: nat) returns (negated: bool, parts: seq<Part>)
    requires IsPattern(p) && i <= |p| && ParseClass(p, i).ClassText?
    ensures PartsOk(negated, parts)
    ensures ParseClass(p, i).next == i + |ClassBody(negated, parts)| && At(p, i, ClassBody(negated, parts))
  {
    hide PartsOk, PartsText;
    assert PartsText([]) == [] && Together([], 0) == {} by {
      NothingRead();
    }
    negated := i < |p| && p[i] == 94;
    var start := if negated then i + 1 else i;
    assert p[start..start] == [];
    parts := PartsFound(p, start, start, negated, []);
    var next := ParseClass(p, i).next;
    assert p[i..next] == (if negated then [94] else []) + p[start..next];
  }

  lemma NothingRead()
    ensures PartsText([]) == [] && Together([], 0) == {}
  {
  }

  // ----- whole patterns again

  /** The term t, without asterisks, is what is read next. */
  predicate IsNext(p: seq<byte>, tied: bool, ts: seq<Term>, i: nat, t: Term) {
    && i <= |p| && StarsOf(t) == 0 && At(p, i, Head(t)) && TermOk(tied, ts + [t], |ts|, i + |Head(t)| < |p|)
    && (t.LineEnd? ==> i + 1 == |p|)
    && (t.OneChar? && t.c == 36 && !t.escaped ==> i + 1 < |p|)
    && (t.InClass? ==> CodeSize(Meaning(ts, |ts|)) + 17 < ESIZE)
  }

  lemma {:induction false} ClassHere(p: seq<byte>, tied: bool, ts: seq<Term>, i: nat) returns (t: Term)
    requires IsPattern(p) && i < |p| && p[i] == 91 && Begun(ts, |ts|) <= NBRA
    requires OneStep(p, PointAt(ts, |ts|, i)).On?
    ensures IsNext(p, tied, ts, i, t)
  {
    hide CodeSize, Meaning, ParseClass, PartsOk, ClassBody, Begun, Unended;
    assert ParseClass(p, i + 1).ClassText?;
    var negated, parts := ClassFound(p, i + 1);
    t := InClass(negated, parts, 0);
    AtMore(p, i, ClassBody(negated, parts));
  }

  lemma AtMore(p: seq<byte>, i: nat, t: seq<byte>)
    requires i < |p| && At(p, i + 1, t)
    ensures At(p, i, [p[i]] + t)
  {
    assert p[i..i + 1 + |t|] == [p[i]] + p[i + 1..i + 1 + |t|];
  }

  lemma {:induction false} EscapeHere(p: seq<byte>, tied: bool, ts: seq<Term>, i: nat) returns (t: Term)
    requires IsPattern(p) && i < |p| && p[i] == 92 && Begun(ts, |ts|) <= NBRA
    requires OneStep(p, PointAt(ts, |ts|, i)).On?
    ensures IsNext(p, tied, ts, i, t)
  {
    hide CodeSize, Meaning, ParseClass, PartsOk, ClassBody, Begun, Unended, Starrable;
    assert i + 1 < |p|;
    var d := p[i + 1];
    assert p[i..i + 2] == [92, d];
    t := if d == 40 then GroupBegin else if d == 41 then GroupEnd else OneChar(d, true, 0);
    SameStart(ts, ts + [t], |ts|);
  }

  lemma {:induction false} PlainHere(p: seq<byte>, tied: bool, ts: seq<Term>, i: nat) returns (t: Term)
    requires IsPattern(p) && i < |p| && p[i] != 91 && p[i] != 92 && !(p[i] == 42 && Starrable(ts, |ts|))
    requires ts == [] && !tied ==> p[i] != 94
    ensures IsNext(p, tied, ts, i, t)
  {
    hide CodeSize, Meaning, Begun, Unended, Starrable;
    var c := p[i];
    t := if c == 46 then AnyChar(0) else if c == 36 && i + 1 == |p| then LineEnd else OneChar(c, false, 0);
    assert p[i..i + 1] == [c];
    SameStart(ts, ts + [t], |ts|);
  }

  /** The code of what is read fits, or more of it is never read. */
  lemma {:induction false} MustFit(p: seq<byte>, at: Point)
    requires at.In(p) && From(p, at).Done?
    ensures CodeSize(at.ps) < ESIZE
    ensures at.i < |p| ==> OneStep(p, at).On? && From(p, at) == From(p, OneStep(p, at).next)
    ensures at.i == |p| ==> From(p, at) == Done(at.ps)
  {
    if at.i < |p| {
      StopsWithoutPieces(p, at);
    }
    hide OneStep, CodeSize;
  }

  lemma StopsWithoutPieces(p: seq<byte>, at: Point)
    requires at.In(p) && at.i < |p|
    ensures OneStep(p, at).Stop? ==> !OneStep(p, at).result.Done?
  {
    hide CodeSize, ParseClass;
  }

  /** One step of reading a pattern that is accepted finds a term, or an asterisk. */
  lemma {:induction false} NextFound(p: seq<byte>, tied: bool, ts: seq<Term>, i: nat)
    returns (now: seq<Term>, next: nat)
    requires IsPattern(p) && ReadUpto(p, tied, ts, i) && i < |p| && (ts == [] && !tied ==> p[i] != 94)
    requires PointAt(ts, |ts|, i).In(p) && From(p, PointAt(ts, |ts|, i)).Done?
    ensures i < next && ReadUpto(p, tied, now, next) && now != []
    ensures PointAt(now, |now|, next).In(p)
    ensures From(p, PointAt(now, |now|, next)) == From(p, PointAt(ts, |ts|, i))
  {
    hide OneStep, PointAt, CodeSize, From, WellFormed, Render, Meaning, ItemOf, TermOk, Head, Begun, Unended;
    var at := PointAt(ts, |ts|, i);
    AtPoint(ts, i);
    MustFit(p, at);
    if p[i] == 42 && Starrable(ts, |ts|) {
      AsteriskFound(p, tied, ts, i);
      now, next := ts[..|ts| - 1] + [Repeated(ts[|ts| - 1])], i + 1;
    } else {
      var t;
      if p[i] == 91 {
        t := ClassHere(p, tied, ts, i);
      } else if p[i] == 92 {
        t := EscapeHere(p, tied, ts, i);
      } else {
        t := PlainHere(p, tied, ts, i);
      }
      now, next := ts + [t], i + |Head(t)|;
      TermFound(p, tied, ts, i, t);
    }
  }

  lemma AtPoint(ts: seq<Term>, i: nat)
    ensures PointAt(ts, |ts|, i).i == i && PointAt(ts, |ts|, i).ps == Meaning(ts, |ts|)
  {
  }

  /** The rest of a pattern that is accepted is found. */
  lemma {:induction false} RestFound(p: seq<byte>, tied: bool, ts: seq<Term>, i: nat) returns (all: seq<Term>)
    requires IsPattern(p) && ReadUpto(p, tied, ts, i) && (ts == [] && !tied && i < |p| ==> p[i] != 94)
    requires PointAt(ts, |ts|, i).In(p) && From(p, PointAt(ts, |ts|, i)).Done?
    ensures WellFormed(tied, all, false) && p == Render(tied, all) && CodeSize(Meaning(all, |all|)) < ESIZE
    decreases |p| - i
  {
    hide CodeSize, PointAt, From, WellFormed, Render, Meaning;
    if i == |p| {
      AtPoint(ts, i);
      MustFit(p, PointAt(ts, |ts|, i));
      assert p[..i] == p;
      all := ts;
    } else {
      var now, next := NextFound(p, tied, ts, i);
      all := RestFound(p, tied, now, next);
    }
  }

  /** A pattern is accepted only if it is written down in this way. */
  lemma {:induction false} AcceptedIsRendered(p: seq<byte>) returns (ts: seq<Term>)
    requires IsPattern(p) && Parse(p).Done?
    ensures WellFormed(Anchored(p), ts, false) && p == Render(Anchored(p), ts)
    ensures CodeSize(Meaning(ts, |ts|)) < ESIZE && Parse(p) == Done(Meaning(ts, |ts|))
  {
    hide ParseFrom, CodeSize;
    var tied := Anchored(p);
    var i: nat := if tied then 1 else 0;
    AtFirst([]);
    assert TextFrom([], 0) == [];
    assert p[..i] == Render(tied, []);
    assert ReadUpto(p, tied, [], i);
    assert From(p, PointAt([], 0, i)) == Parse(p);
    ts := RestFound(p, tied, [], i);
    RenderedIsRead(tied, ts);
  }

  /** What a pattern says, if it is accepted, and otherwise nothing. */
  ghost predicate Says(p: seq<byte>, ts: seq<Term>, ps: seq<Piece>) {
    && WellFormed(Anchored(p), ts, false) && p == Render(Anchored(p), ts)
    && ps == Meaning(ts, |ts|) && CodeSize(ps) < ESIZE
  }

  /**
   * A pattern is accepted, and means certain pieces, if and only if it is written down so and its
   * code fits the buffer.
   */
  lemma {:induction false} ReadExactly(p: seq<byte>, ps: seq<Piece>)
    requires IsPattern(p)
    ensures Parse(p) == Done(ps) <==> exists ts :: Says(p, ts, ps)
  {
    hide Parse, WellFormed, Render, Meaning, CodeSize;
    if Parse(p) == Done(ps) {
      var ts := AcceptedIsRendered(p);
      assert Says(p, ts, ps);
    }
    if ts :| Says(p, ts, ps) {
      RenderedIsRead(Anchored(p), ts);
    }
  }

  lemma {:induction false} PartsTextSevenBit(negated: bool, parts: seq<Part>, n: nat)
    requires PartsOk(negated, parts) && n <= |parts|
    ensures IsPattern(PartsText(parts[..n]))
  {
    if n > 0 {
      PartsTextSevenBit(negated, parts, n - 1);
      PartsTextNext(parts, n - 1);
      assert PartOk(negated, parts, n - 1);
    }
  }

  lemma {:induction false} TermTextSevenBit(tied: bool, ts: seq<Term>, n: nat)
    requires n < |ts| && TermOk(tied, ts, n, false)
    ensures IsPattern(TermText(ts[n]))
  {
    HeadAndStars(ts[n]);
    if ts[n].InClass? {
      assert ts[n].parts[..|ts[n].parts|] == ts[n].parts;
      PartsTextSevenBit(ts[n].negated, ts[n].parts, |ts[n].parts|);
    }
  }

  lemma {:induction false} TextSevenBit(tied: bool, ts: seq<Term>, n: nat)
    requires n <= |ts| && WellFormed(tied, ts, false)
    ensures IsPattern(TextFrom(ts, n))
    decreases |ts| - n
  {
    hide TermText;
    if n < |ts| {
      assert TermOk(tied, ts, n, false);
      TermTextSevenBit(tied, ts, n);
      TextSevenBit(tied, ts, n + 1);
    }
  }

  lemma {:induction false} RenderIsPattern(tied: bool, ts: seq<Term>)
    requires WellFormed(tied, ts, false)
    ensures IsPattern(Render(tied, ts))
  {
    TextSevenBit(tied, ts, 0);
  }

  /** Grep on a pattern as it is written: the line is selected if and only if it matches what is meant. */
  method GrepWritten(tied: bool, ts: seq<Term>, line: seq<byte>, ghost t: seq<byte>) returns (found: bool)
    requires WellFormed(tied, ts, false) && CodeSize(Meaning(ts, |ts|)) < ESIZE && LineHolds(line, t)
    ensures var ps := Meaning(ts, |ts|);
      found <==> if tied then Matches(ps, t, 0) else MatchesWithin(ps, t, 0, |t|)
  {
    hide WellFormed, Render, Meaning, CodeSize, Matches, MatchesWithin, Parse;
    RenderedIsRead(tied, ts);
    RenderIsPattern(tied, ts);
    var status;
    status, found := Grep(Render(tied, ts), line, t);
  }
}
