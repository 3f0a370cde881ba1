/**
 * The rules and the bookkeeping of games/canfield.c. The piles, which the source links
 * through the cards, are sequences here, top card first.
 */
module Canfield {

  type Card = x: int | 0 <= x < 52

  const ACE: nat := 1
  const KING: nat := 13
  const TABROW: int := 8
  const VALUE_PER_CARD: int := 5

  datatype Option<T> = None | Some(value: T)

  /** Where a single card can be taken from. */
  datatype Pile = Stock | Talon | Column(i: nat)

  // ----- cards, as `initdeck` makes them

  function Rank(c: Card): nat {
    c % 13 + 1
  }

  function Suit(c: Card): nat {
    c / 13
  }

  predicate Red(c: Card) {
    Suit(c) >= 2
  }

  predicate RankLower(a: Card, b: Card) {
    if Rank(b) == ACE then Rank(a) == KING else Rank(a) + 1 == Rank(b)
  }

  predicate RankHigher(a: Card, b: Card) {
    if Rank(b) == KING then Rank(a) == ACE else Rank(a) - 1 == Rank(b)
  }

  predicate DiffColor(a: Card, b: Card) {
    Red(a) != Red(b)
  }

  /** A card is its suit and its rank. */
  lemma {:induction false} SameCard(a: Card, b: Card)
    requires Rank(a) == Rank(b) && Suit(a) == Suit(b)
    ensures a == b
  {
  }

  // ----- piles

  /** A column of the tableau: each card is one lower than the one it lies on, and of the other colour. */
  ghost predicate Ladder(s: seq<Card>) {
    forall k :: 0 < k < |s| ==> RankLower(s[k - 1], s[k]) && DiffColor(s[k - 1], s[k])
  }

  /** A foundation pile: one suit, upwards from the base card's rank. */
  ghost predicate Building(s: seq<Card>, baseRank: nat) {
    && s != [] && Rank(s[|s| - 1]) == baseRank
    && forall k :: 0 < k < |s| ==> RankHigher(s[k - 1], s[k]) && Suit(s[k - 1]) == Suit(s[k])
  }

  /** The k-th card of a foundation pile, from below, has the base rank plus k, round the king, and its suit. */
  lemma {:induction false} BuildingRanks(s: seq<Card>, baseRank: nat, k: nat)
    requires Building(s, baseRank) && 1 <= baseRank <= 13 && k < |s|
    ensures s[|s| - 1 - k] % 13 == (baseRank - 1 + k) % 13 && s[|s| - 1 - k] / 13 == s[|s| - 1] / 13
  {
    if k > 0 {
      BuildingRanks(s, baseRank, k - 1);
      NextRank(s[|s| - 1 - k], s[|s| - k]);
      assert (baseRank - 1 + (k - 1)) % 13 == s[|s| - k] % 13;
    }
  }

  /** One rank higher is the next one, an ace after a king. */
  lemma {:induction false} NextRank(a: Card, b: Card)
    ensures RankHigher(a, b) <==> a % 13 == (b % 13 + 1) % 13
    ensures RankLower(a, b) <==> b % 13 == (a % 13 + 1) % 13
  {
  }

  /** Cards of a column go down by one upwards, round the ace, and change colour; spades and clubs come first. */
  lemma {:induction false} LadderCards(s: seq<Card>, k: nat)
    requires Ladder(s) && 0 < k < |s|
    ensures s[k] % 13 == (s[k - 1] % 13 + 1) % 13 && (s[k] < 26) != (s[k - 1] < 26)
  {
    NextRank(s[k - 1], s[k]);
  }

  ghost predicate NoneOfRank(s: seq<Card>, r: nat) {
    forall k :: 0 <= k < |s| ==> Rank(s[k]) != r
  }

  /** How far a card is above the base card, going round. */
  function Above(c: Card, baseRank: nat): nat
    requires 1 <= baseRank <= 13
  {
    (Rank(c) - baseRank + 13) % 13
  }

  /** A column without cards of the base rank does not wrap round, so it has at most twelve cards. */
  lemma {:induction false} LadderHeight(s: seq<Card>, baseRank: nat)
    requires s != [] && 1 <= baseRank <= 13 && Ladder(s) && NoneOfRank(s, baseRank)
    ensures Above(s[|s| - 1], baseRank) == Above(s[0], baseRank) + |s| - 1
    ensures |s| <= 12
  {
    hide Rank, RankLower, DiffColor, Above;
    if |s| > 1 {
      LadderHeight(s[..|s| - 1], baseRank);
      StepUp(s[|s| - 2], s[|s| - 1], baseRank);
    }
    OffBase(s[0], baseRank);
    OffBase(s[|s| - 1], baseRank);
  }

  lemma {:induction false} StepUp(a: Card, b: Card, baseRank: nat)
    requires 1 <= baseRank <= 13 && RankLower(a, b) && Rank(b) != baseRank
    ensures Above(b, baseRank) == Above(a, baseRank) + 1
  {
  }

  lemma {:induction false} OffBase(c: Card, baseRank: nat)
    requires 1 <= baseRank <= 13 && Rank(c) != baseRank
    ensures 1 <= Above(c, baseRank) <= 12
  {
  }

  /** No column can be moved onto itself. */
  lemma {:induction false} NotOntoItself(s: seq<Card>, baseRank: nat)
    requires s != [] && 1 <= baseRank <= 13 && Ladder(s) && NoneOfRank(s, baseRank)
    ensures !(RankLower(s[|s| - 1], s[0]) && DiffColor(s[|s| - 1], s[0]))
  {
    LadderHeight(s, baseRank);
  }

  // ----- the cards of several piles

  /** How often a card lies in a pile. */
  ghost function Times(s: seq<Card>, c: Card): nat {
    multiset(s)[c]
  }

  ghost function TimesIn(piles: seq<seq<Card>>, c: Card): nat {
    if piles == [] then 0 else TimesIn(piles[..|piles| - 1], c) + Times(piles[|piles| - 1], c)
  }

  function Count(piles: seq<seq<Card>>): nat {
    if piles == [] then 0 else Count(piles[..|piles| - 1]) + |piles[|piles| - 1]|
  }

  lemma {:induction false} PileChanged(piles: seq<seq<Card>>, i: nat, s: seq<Card>, c: Card)
    requires i < |piles|
    ensures TimesIn(piles[i := s], c) == TimesIn(piles, c) - Times(piles[i], c) + Times(s, c)
    ensures Count(piles[i := s]) == Count(piles) - |piles[i]| + |s|
  {
    var n, now := |piles| - 1, piles[i := s];
    if i < n {
      PileChanged(piles[..n], i, s, c);
      assert now[..n] == piles[..n][i := s] && now[n] == piles[n];
    } else {
      assert now[..n] == piles[..n] && now[n] == s;
    }
  }

  lemma {:induction false} TimesOfOne(piles: seq<seq<Card>>, i: nat, c: Card)
    requires i < |piles|
    ensures TimesIn(piles, c) >= Times(piles[i], c)
  {
    if i < |piles| - 1 {
      TimesOfOne(piles[..|piles| - 1], i, c);
    }
  }

  lemma {:induction false} TimesOfTwo(piles: seq<seq<Card>>, i: nat, j: nat, c: Card)
    requires i < j < |piles|
    ensures TimesIn(piles, c) >= Times(piles[i], c) + Times(piles[j], c)
  {
    if j < |piles| - 1 {
      TimesOfTwo(piles[..|piles| - 1], i, j, c);
    } else {
      TimesOfOne(piles[..j], i, c);
    }
  }

  /** Taking the top card off, and putting one on. */
  lemma {:induction false} TopTimes(s: seq<Card>, c: Card)
    requires s != []
    ensures Times(s, c) == Times(s[1..], c) + if c == s[0] then 1 else 0
  {
    assert s == [s[0]] + s[1..];
  }

  lemma {:induction false} JoinTimes(a: seq<Card>, b: seq<Card>, c: Card)
    ensures Times(a + b, c) == Times(a, c) + Times(b, c)
  {
  }

  // ----- the cards on the table

  datatype Board = Board(hand: seq<Card>, talon: seq<Card>, stock: seq<Card>,
                         found: seq<seq<Card>>, tableau: seq<seq<Card>>)
  {
    ghost predicate Ok() {
      |found| == 4 == |tableau|
    }

    function Get(p: Pile): seq<Card>
      requires p.Column? ==> p.i < |tableau|
    {
      match p case Stock => stock case Talon => talon case Column(i) => tableau[i]
    }

    function Set(p: Pile, s: seq<Card>): Board
      requires p.Column? ==> p.i < |tableau|
    {
      match p
      case Stock => this.(stock := s)
      case Talon => this.(talon := s)
      case Column(i) => this.(tableau := tableau[i := s])
    }

    ghost function TimesAll(c: Card): nat {
      Times(hand, c) + Times(talon, c) + Times(stock, c) + TimesIn(found, c) + TimesIn(tableau, c)
    }

    /** Every card lies in exactly one place. */
    ghost predicate Partition() {
      forall c: Card :: TimesAll(c) == 1
    }
  }

  lemma {:induction false} SetTimes(b: Board, p: Pile, s: seq<Card>, c: Card)
    requires p.Column? ==> p.i < |b.tableau|
    ensures b.Set(p, s).TimesAll(c) == b.TimesAll(c) - Times(b.Get(p), c) + Times(s, c)
  {
    if p.Column? {
      PileChanged(b.tableau, p.i, s, c);
    }
  }

  /** The top card of a pile goes onto a foundation pile. */
  function ToFound(b: Board, p: Pile, k: nat): Board
    requires k < |b.found| && (p.Column? ==> p.i < |b.tableau|) && b.Get(p) != []
  {
    var s := b.Get(p);
    b.Set(p, s[1..]).(found := b.found[k := [s[0]] + b.found[k]])
  }

  lemma {:induction false} ToFoundKeeps(b: Board, p: Pile, k: nat)
    requires b.Ok() && b.Partition() && k < 4 && (p.Column? ==> p.i < 4) && b.Get(p) != []
    ensures ToFound(b, p, k).Partition() && Count(ToFound(b, p, k).found) == Count(b.found) + 1
  {
    var s := b.Get(p);
    PileChanged(b.found, k, [s[0]] + b.found[k], s[0]);
    forall c: Card
      ensures ToFound(b, p, k).TimesAll(c) == 1
    {
      SetTimes(b, p, s[1..], c);
      TopTimes(s, c);
      PileChanged(b.found, k, [s[0]] + b.found[k], c);
      assert b.TimesAll(c) == 1;
    }
  }

  /** The top card of the stock or the talon goes onto a column. */
  function ToColumn(b: Board, p: Pile, k: nat): Board
    requires k < |b.tableau| && !p.Column? && b.Get(p) != []
  {
    var s := b.Get(p);
    b.Set(p, s[1..]).Set(Column(k), [s[0]] + b.tableau[k])
  }

  lemma {:induction false} ToColumnKeeps(b: Board, p: Pile, k: nat)
    requires b.Ok() && b.Partition() && k < 4 && !p.Column? && b.Get(p) != []
    ensures ToColumn(b, p, k).Partition()
  {
    var s := b.Get(p);
    var t := b.Set(p, s[1..]);
    forall c: Card
      ensures ToColumn(b, p, k).TimesAll(c) == 1
    {
      SetTimes(b, p, s[1..], c);
      TopTimes(s, c);
      SetTimes(t, Column(k), [s[0]] + b.tableau[k], c);
      assert b.TimesAll(c) == 1;
    }
  }

  /** A whole column goes onto another. */
  function Joined(b: Board, i: nat, j: nat): Board
    requires i < |b.tableau| && j < |b.tableau|
  {
    b.Set(Column(j), b.tableau[i] + b.tableau[j]).Set(Column(i), [])
  }

  lemma {:induction false} JoinedKeeps(b: Board, i: nat, j: nat)
    requires b.Ok() && b.Partition() && i < 4 && j < 4 && i != j
    ensures Joined(b, i, j).Partition()
  {
    var t := b.Set(Column(j), b.tableau[i] + b.tableau[j]);
    forall c: Card
      ensures Joined(b, i, j).TimesAll(c) == 1
    {
      SetTimes(b, Column(j), b.tableau[i] + b.tableau[j], c);
      SetTimes(t, Column(i), [], c);
      JoinTimes(b.tableau[i], b.tableau[j], c);
      assert b.TimesAll(c) == 1;
    }
  }

  // ----- why there are never more than four foundation piles

  ghost predicate Foundations(b: Board, base: int, baseRank: nat) {
    && b.Ok() && 0 <= base <= 3
    && forall i :: 0 <= i < 4 ==> if i <= base then Building(b.found[i], baseRank) else b.found[i] == []
  }

  function BottomCard(b: Board, i: nat): Card
    requires i < |b.found| && b.found[i] != []
  {
    b.found[i][|b.found[i]| - 1]
  }

  lemma {:induction false} MemberTimes(s: seq<Card>, k: nat)
    requires k < |s|
    ensures Times(s, s[k]) >= 1
  {
    assert s[k] in multiset(s);
  }

  lemma {:induction false} BottomsDiffer(b: Board, i: nat, j: nat)
    requires b.Ok() && b.Partition() && i < j < 4 && b.found[i] != [] && b.found[j] != []
    ensures BottomCard(b, i) != BottomCard(b, j)
  {
    var c := BottomCard(b, i);
    MemberTimes(b.found[i], |b.found[i]| - 1);
    MemberTimes(b.found[j], |b.found[j]| - 1);
    TimesOfTwo(b.found, i, j, c);
    assert b.TimesAll(c) == 1;
  }

  lemma {:induction false} BottomNotOnTop(b: Board, p: Pile, i: nat)
    requires b.Ok() && b.Partition() && i < 4 && b.found[i] != [] && (p.Column? ==> p.i < 4) && b.Get(p) != []
    ensures b.Get(p)[0] != BottomCard(b, i)
  {
    var c := BottomCard(b, i);
    MemberTimes(b.found[i], |b.found[i]| - 1);
    MemberTimes(b.Get(p), 0);
    TimesOfOne(b.found, i, c);
    if p.Column? {
      TimesOfOne(b.tableau, p.i, c);
    }
    assert b.TimesAll(c) == 1;
  }

  /** Four base cards show all four suits. */
  lemma {:induction false} AllSuitsUsed(b: Board, baseRank: nat, suit: nat) returns (i: nat)
    requires b.Partition() && Foundations(b, 3, baseRank) && suit < 4
    ensures i < 4 && Suit(BottomCard(b, i)) == suit
  {
    forall i, j | 0 <= i < j < 4
      ensures Suit(BottomCard(b, i)) != Suit(BottomCard(b, j))
    {
      BottomsDiffer(b, i, j);
    }
    i := FourSuits(Suit(BottomCard(b, 0)), Suit(BottomCard(b, 1)), Suit(BottomCard(b, 2)), Suit(BottomCard(b, 3)),
      suit);
  }

  lemma {:induction false} FourSuits(s0: nat, s1: nat, s2: nat, s3: nat, suit: nat) returns (i: nat)
    requires s0 < 4 && s1 < 4 && s2 < 4 && s3 < 4 && suit < 4
    requires s0 != s1 && s0 != s2 && s0 != s3 && s1 != s2 && s1 != s3 && s2 != s3
    ensures i < 4 && [s0, s1, s2, s3][i] == suit
  {
    i := if s0 == suit then 0 else if s1 == suit then 1 else if s2 == suit then 2 else 3;
  }

  /** When four base cards are on the foundation, no other pile shows one. */
  lemma {:induction false} NoFifthBase(b: Board, p: Pile, baseRank: nat)
    requires b.Partition() && Foundations(b, 3, baseRank) && (p.Column? ==> p.i < 4) && b.Get(p) != []
    ensures Rank(b.Get(p)[0]) != baseRank
  {
    var c := b.Get(p)[0];
    var i := AllSuitsUsed(b, baseRank, Suit(c));
    BottomNotOnTop(b, p, i);
    if Rank(c) == baseRank {
      SameCard(c, BottomCard(b, i));
    }
  }

  predicate CanMove(b: Board, p: Pile, k: nat) {
    |b.found| == 4 == |b.tableau| && k < 4 && (p.Column? ==> p.i < 4) && b.Get(p) != []
  }

  /** The top card of p fits on foundation pile k; `grown` says that it starts the pile. */
  predicate Fits(b: Board, p: Pile, k: nat, base: int, grown: bool, baseRank: nat) {
    && CanMove(b, p, k)
    && var c := b.Get(p)[0];
    if grown then base < 3 && k == base + 1 && Rank(c) == baseRank
    else b.found[k] != [] && RankHigher(c, b.found[k][0]) && Suit(c) == Suit(b.found[k][0])
  }

  /** A card is refused by a foundation pile unless it is the next one of the suit on top. */
  lemma {:induction false} FitsExactly(b: Board, p: Pile, k: nat, base: int, baseRank: nat)
    requires CanMove(b, p, k)
    ensures Fits(b, p, k, base, false, baseRank) <==>
      && b.found[k] != []
      && var c, top := b.Get(p)[0], b.found[k][0]; c % 13 == (top % 13 + 1) % 13 && c / 13 == top / 13
  {
    if b.found[k] != [] {
      NextRank(b.Get(p)[0], b.found[k][0]);
    }
  }

  lemma {:induction false} FoundationsGrow(b: Board, p: Pile, k: nat, base: int, grown: bool, baseRank: nat)
    requires Foundations(b, base, baseRank) && Fits(b, p, k, base, grown, baseRank)
    ensures Foundations(ToFound(b, p, k), if grown then base + 1 else base, baseRank)
  {
    var c, pile := b.Get(p)[0], [b.Get(p)[0]] + b.found[k];
    forall m | 0 < m < |pile|
      ensures RankHigher(pile[m - 1], pile[m]) && Suit(pile[m - 1]) == Suit(pile[m])
    {
      assert pile[m] == b.found[k][m - 1];
      assert m > 1 ==> pile[m - 1] == b.found[k][m - 2];
    }
    assert Building(pile, baseRank);
  }

  /** Cards have gone from the top of pile p, and the other piles are as they were. */
  ghost predicate Shortened(was: Board, now: Board, p: Pile) {
    && |was.tableau| == 4 == |now.tableau| && (p.Column? ==> p.i < 4) && now.hand == was.hand
    && |now.Get(p)| <= |was.Get(p)| && now.Get(p) == was.Get(p)[|was.Get(p)| - |now.Get(p)|..]
    && forall q: Pile :: q != p && (q.Column? ==> q.i < 4) ==> now.Get(q) == was.Get(q)
  }

  lemma {:induction false} ShortenedNot(b: Board, p: Pile)
    requires |b.tableau| == 4 && (p.Column? ==> p.i < 4)
    ensures Shortened(b, b, p)
  {
  }

  lemma {:induction false} ShortenedMore(was: Board, now: Board, p: Pile, k: nat)
    requires Shortened(was, now, p) && CanMove(now, p, k)
    ensures Shortened(was, ToFound(now, p, k), p)
    ensures |ToFound(now, p, k).Get(p)| < |now.Get(p)| && |ToFound(now, p, k).tableau| == 4
  {
    assert now.Get(p)[1..] == was.Get(p)[|was.Get(p)| - |now.Get(p)| + 1..];
  }

  // ----- the lowest cards of the columns

  ghost predicate BottomOk(b: Board, bottom: seq<Option<Card>>, i: nat)
    requires i < |b.tableau| && i < |bottom|
  {
    if b.tableau[i] != [] then bottom[i] == Some(b.tableau[i][|b.tableau[i]| - 1])
    else bottom[i].Some? ==> TimesIn(b.found, bottom[i].value) >= 1
  }

  /** `bottom` shows the lowest card of a column; for an empty column, a card that is on the foundation, or none. */
  ghost predicate Bottoms(b: Board, bottom: seq<Option<Card>>) {
    |bottom| == 4 && b.Ok() && forall i :: 0 <= i < 4 ==> BottomOk(b, bottom, i)
  }

  lemma {:induction false} BottomsToFound(b: Board, bottom: seq<Option<Card>>, p: Pile, k: nat)
    requires Bottoms(b, bottom) && k < 4 && (p.Column? ==> p.i < 4) && b.Get(p) != []
    ensures Bottoms(ToFound(b, p, k), bottom)
  {
    var c, now := b.Get(p)[0], ToFound(b, p, k);
    forall x: Card
      ensures TimesIn(now.found, x) == TimesIn(b.found, x) + if x == c then 1 else 0
    {
      PileChanged(b.found, k, [c] + b.found[k], x);
    }
    forall i | 0 <= i < 4
      ensures BottomOk(now, bottom, i)
    {
      assert BottomOk(b, bottom, i);
    }
  }

  // ----- what every move keeps

  ghost predicate BoardOk(b: Board, bottom: seq<Option<Card>>, base: int, baseRank: nat) {
    b.Ok() && b.Partition() && Bottoms(b, bottom) && Foundations(b, base, baseRank)
  }

  lemma {:induction false} ToFoundOk(b: Board, bottom: seq<Option<Card>>, p: Pile, k: nat, base: int, grown: bool,
                                     baseRank: nat)
    requires BoardOk(b, bottom, base, baseRank) && Fits(b, p, k, base, grown, baseRank)
    ensures CanMove(b, p, k)
    ensures BoardOk(ToFound(b, p, k), bottom, if grown then base + 1 else base, baseRank)
    ensures Count(ToFound(b, p, k).found) == Count(b.found) + 1
  {
    ToFoundKeeps(b, p, k);
    FoundationsGrow(b, p, k, base, grown, baseRank);
    BottomsToFound(b, bottom, p, k);
  }

  lemma EmptyColumn(baseRank: nat)
    ensures Ladder([]) && NoneOfRank([], baseRank)
  {
  }

  /** The stock or the talon gives a card to column k. */
  lemma {:induction false} ToColumnOk(b: Board, bottom: seq<Option<Card>>, p: Pile, k: nat, base: int, baseRank: nat)
    requires BoardOk(b, bottom, base, baseRank) && CanMove(b, p, k) && !p.Column?
    ensures var now := if b.tableau[k] == [] then bottom[k := Some(b.Get(p)[0])] else bottom;
      BoardOk(ToColumn(b, p, k), now, base, baseRank)
  {
    ToColumnKeeps(b, p, k);
    var c, to := b.Get(p)[0], ToColumn(b, p, k);
    var now := if b.tableau[k] == [] then bottom[k := Some(c)] else bottom;
    forall i | 0 <= i < 4
      ensures BottomOk(to, now, i)
    {
      assert BottomOk(b, bottom, i);
    }
  }

  /** A column goes onto another one that is not empty. */
  lemma {:induction false} JoinedOk(b: Board, bottom: seq<Option<Card>>, i: nat, j: nat, base: int, baseRank: nat)
    requires BoardOk(b, bottom, base, baseRank) && i < 4 && j < 4 && i != j
    requires b.tableau[i] != [] && b.tableau[j] != []
    ensures BoardOk(Joined(b, i, j), bottom[i := None], base, baseRank)
  {
    JoinedKeeps(b, i, j);
    var now, low := Joined(b, i, j), bottom[i := None];
    forall k | 0 <= k < 4
      ensures BottomOk(now, low, k)
    {
      assert BottomOk(b, bottom, k);
    }
  }

  /** A column goes onto an empty one: `bottom` is not set, so it no longer shows the lowest card there. */
  lemma {:induction false} JoinedEmpty(b: Board, bottom: seq<Option<Card>>, i: nat, j: nat, base: int, baseRank: nat)
    requires BoardOk(b, bottom, base, baseRank) && i < 4 && j < 4 && b.tableau[i] != [] && b.tableau[j] == []
    ensures Joined(b, i, j).Partition() && !Bottoms(Joined(b, i, j), bottom[i := None])
  {
    JoinedKeeps(b, i, j);
    var s := b.tableau[i];
    var low := s[|s| - 1];
    assert BottomOk(b, bottom, j);
    MemberTimes(s, |s| - 1);
    TimesOfOne(b.tableau, i, low);
    assert b.TimesAll(low) == 1;
    assert Joined(b, i, j).tableau[j] == s;
    assert !BottomOk(Joined(b, i, j), bottom[i := None], j);
  }

  /** Cards change between the hand and the talon. */
  lemma {:induction false} HandTalonOk(b: Board, now: Board, bottom: seq<Option<Card>>, base: int, baseRank: nat)
    requires BoardOk(b, bottom, base, baseRank)
    requires now.stock == b.stock && now.found == b.found && now.tableau == b.tableau
    requires SameCards(b, now)
    ensures BoardOk(now, bottom, base, baseRank)
  {
    forall c: Card
      ensures now.TimesAll(c) == 1
    {
      assert b.TimesAll(c) == 1;
    }
    forall i | 0 <= i < 4
      ensures BottomOk(now, bottom, i)
    {
      assert BottomOk(b, bottom, i);
    }
  }

  ghost predicate SameCards(b: Board, now: Board) {
    forall c: Card :: Times(now.hand, c) + Times(now.talon, c) == Times(b.hand, c) + Times(b.talon, c)
  }

  ghost predicate NoBaseIn(b: Board, baseRank: nat) {
    forall i :: 0 <= i < |b.tableau| ==> NoneOfRank(b.tableau[i], baseRank)
  }

  // ----- dealing

  function Reversed(s: seq<Card>): (r: seq<Card>)
    ensures |r| == |s|
  {
    if s == [] then [] else Reversed(s[1..]) + [s[0]]
  }

  lemma {:induction false} ReversedLast(s: seq<Card>, c: Card)
    ensures Reversed(s + [c]) == [c] + Reversed(s)
  {
    if s == [] {
      assert [c][1..] == [];
    } else {
      assert (s + [c])[1..] == s[1..] + [c];
      ReversedLast(s[1..], c);
    }
  }

  /** One card after another from a to b. */
  lemma {:induction false} OneOver(a: seq<Card>, b: seq<Card>, c: Card)
    requires a != []
    ensures Times(a[1..], c) + Times([a[0]] + b, c) == Times(a, c) + Times(b, c)
  {
    TopTimes(a, c);
  }

  /** i cards have gone from the top of h onto t, one by one; a and b are what is there now. */
  ghost predicate Over(h: seq<Card>, t: seq<Card>, i: nat, a: seq<Card>, b: seq<Card>) {
    && i <= |h| && a == h[i..] && b == Reversed(h[..i]) + t
    && forall c: Card :: Times(a, c) + Times(b, c) == Times(h, c) + Times(t, c)
  }

  lemma {:induction false} OverStart(h: seq<Card>, t: seq<Card>)
    ensures Over(h, t, 0, h, t)
  {
    assert h[..0] == [] && Reversed(h[..0]) + t == t;
  }

  lemma {:induction false} OverStep(h: seq<Card>, t: seq<Card>, i: nat, a: seq<Card>, b: seq<Card>)
    requires Over(h, t, i, a, b) && a != []
    ensures Over(h, t, i + 1, a[1..], [a[0]] + b)
  {
    hide Times;
    forall c: Card
      ensures Times(a[1..], c) + Times([a[0]] + b, c) == Times(h, c) + Times(t, c)
    {
      OneOver(a, b, c);
    }
    ReversedLast(h[..i], h[i]);
    assert h[..i + 1] == h[..i] + [h[i]];
    assert [a[0]] + (Reversed(h[..i]) + t) == ([a[0]] + Reversed(h[..i])) + t;
  }

  lemma {:induction false} NoBaseAdded(b: Board, p: Pile, k: nat, baseRank: nat)
    requires CanMove(b, p, k) && !p.Column?
    ensures NoBaseIn(b, baseRank) && Rank(b.Get(p)[0]) != baseRank ==> NoBaseIn(ToColumn(b, p, k), baseRank)
  {
  }

  lemma {:induction false} ColumnFits(b: Board, p: Pile, k: nat)
    requires CanMove(b, p, k) && !p.Column? && TabOkOn(b, b.Get(p)[0], k) && Ladder(b.tableau[k])
    ensures Ladder([b.Get(p)[0]] + b.tableau[k])
  {
    var s := [b.Get(p)[0]] + b.tableau[k];
    forall i | 0 < i < |s| ensures RankLower(s[i - 1], s[i]) && DiffColor(s[i - 1], s[i]) {
      assert i > 1 ==> s[i - 1] == b.tableau[k][i - 2] && s[i] == b.tableau[k][i - 1];
    }
  }

  // ----- how many cards can be off

  function Flat(piles: seq<seq<Card>>): seq<Card> {
    if piles == [] then [] else Flat(piles[..|piles| - 1]) + piles[|piles| - 1]
  }

  lemma {:induction false} FlatTimes(piles: seq<seq<Card>>, c: Card)
    ensures Times(Flat(piles), c) == TimesIn(piles, c) && |Flat(piles)| == Count(piles)
  {
    if piles != [] {
      FlatTimes(piles[..|piles| - 1], c);
      JoinTimes(Flat(piles[..|piles| - 1]), piles[|piles| - 1], c);
    }
  }

  /** A card that is still in a column is not on the foundation. */
  lemma {:induction false} NotAllOff(b: Board, i: nat)
    requires b.Ok() && b.Partition() && i < 4 && b.tableau[i] != []
    ensures Count(b.found) < 52
  {
    var f, x := Flat(b.found), b.tableau[i][0];
    forall c: Card ensures Times(f, c) <= 1 && (c == x ==> Times(f, c) == 0) {
      FlatTimes(b.found, c);
      assert b.TimesAll(c) == 1;
      if c == x {
        MemberTimes(b.tableau[i], 0);
        TimesOfOne(b.tableau, i, x);
      }
    }
    FlatTimes(b.found, x);
    MembersCounted(f);
    AllCards(52);
    SubsetSmaller(Members(f), CardsBelow(52) - {x});
  }

  function CardsBelow(n: nat): (s: set<Card>)
    requires n <= 52
    ensures forall c: Card :: c in s <==> c < n
  {
    if n == 0 then {} else CardsBelow(n - 1) + {n - 1}
  }

  lemma OneCardMore(s: set<Card>, c: Card)
    requires c !in s
    ensures |s + {c}| == |s| + 1
  {
  }

  lemma {:induction false} AllCards(n: nat)
    requires n <= 52
    ensures |CardsBelow(n)| == n
  {
    if n > 0 {
      AllCards(n - 1);
      var last: Card := n - 1;
      assert CardsBelow(n) == CardsBelow(n - 1) + {last} && last !in CardsBelow(n - 1);
      OneCardMore(CardsBelow(n - 1), last);
    }
  }

  // ----- what the procedures do to the board

  /** The part of the game that decides what a command does. */
  datatype Table = Table(b: Board, base: int, timesthru: int, infullgame: bool, done: bool, counting: bool)

  /** `fndbase`: as long as a base card is on top of the pile, it starts the next foundation pile. */
  function BasesGone(b: Board, p: Pile, base: int, baseRank: nat): (r: (Board, int))
    requires b.Ok()
    ensures r.0.Ok()
    decreases 3 - base
  {
    if 0 <= base < 3 && CanMove(b, p, base + 1) && Rank(b.Get(p)[0]) == baseRank then
      BasesGone(ToFound(b, p, base + 1), p, base + 1, baseRank)
    else (b, base)
  }

  lemma NoBaseOnTop(b: Board, p: Pile, base: int, baseRank: nat)
    requires b.Ok() && (p.Column? ==> p.i < 4) && (b.Get(p) == [] || Rank(b.Get(p)[0]) != baseRank)
    ensures BasesGone(b, p, base, baseRank) == (b, base)
  {
  }

  function Cleared(t: Table, p: Pile, baseRank: nat): (r: Table)
    requires t.b.Ok()
    ensures r.b.Ok()
  {
    var (b, base) := BasesGone(t.b, p, t.base, baseRank);
    t.(b := b, base := base)
  }

  /** `movetotalon` */
  function Dealt(t: Table, baseRank: nat): (r: Table)
    requires t.b.Ok()
    ensures r.b.Ok()
  {
    var again := t.b.hand == [] && t.b.talon != [];
    var thru := if again then t.timesthru + 1 else t.timesthru;
    if again && thru == 4 then t.(timesthru := thru, done := true)
    else
      var h, rest := if again then Reversed(t.b.talon) else t.b.hand, if again then [] else t.b.talon;
      var fin := if |h| >= 3 then 3 else |h|;
      if fin == 0 then t
      else
        var b := t.b.(hand := h[fin..], talon := Reversed(h[..fin]) + rest);
        Cleared(t.(b := b, timesthru := thru), Talon, baseRank)
  }

  /** The first foundation pile from the k-th on, where the top card of p fits, or 4. */
  function FitFrom(b: Board, p: Pile, k: nat): (f: nat)
    requires k <= 4
    ensures k <= f <= 4 && (f < 4 ==> Fits(b, p, f, 0, false, 1))
    ensures forall j :: k <= j < f ==> !Fits(b, p, j, 0, false, 1)
    decreases 4 - k
  {
    if k == 4 || Fits(b, p, k, 0, false, 1) then k else FitFrom(b, p, k + 1)
  }

  lemma FirstFit(b: Board, p: Pile, base: int, baseRank: nat, some: bool, k: nat)
    requires forall j :: 0 <= j < (if some then k else 4) ==> !Fits(b, p, j, base, false, baseRank)
    requires some ==> k < 4 && Fits(b, p, k, base, false, baseRank)
    ensures FitFrom(b, p, 0) == if some then k else 4
  {
    assert forall j :: 0 <= j < 4 ==> Fits(b, p, j, base, false, baseRank) == Fits(b, p, j, 0, false, 1);
  }

  /** `tabok` */
  predicate TabOkOn(b: Board, c: Card, des: nat)
    requires des < |b.tableau|
  {
    if b.stock != [] && c == b.stock[0] && b.tableau[des] == [] then true
    else if b.tableau[des] == [] then b.stock == []
    else RankLower(c, b.tableau[des][0]) && DiffColor(c, b.tableau[des][0])
  }

  /**
   * A card is refused by a column unless it is the one below the top card, of the other colour; an
   * empty column takes the top of the stock, or any card once the stock is empty.
   */
  lemma {:induction false} TabOkExactly(b: Board, c: Card, des: nat)
    requires des < |b.tableau|
    ensures TabOkOn(b, c, des) <==>
      if b.tableau[des] == [] then b.stock == [] || c == b.stock[0]
      else b.tableau[des][0] % 13 == (c % 13 + 1) % 13 && (b.tableau[des][0] < 26) != (c < 26)
  {
    if b.tableau[des] != [] {
      NextRank(c, b.tableau[des][0]);
    }
  }

  /** Three cards are dealt one onto the other, if there are three; the last one is on top. */
  lemma {:induction false} ThreeDealt(t: Table, baseRank: nat)
    requires t.b.Ok() && t.b.hand != []
    ensures var h, now := t.b.hand, Dealt(t, baseRank);
      && (|h| == 1 && Rank(h[0]) != baseRank ==> now == t.(b := t.b.(hand := [], talon := [h[0]] + t.b.talon)))
      && (|h| == 2 && Rank(h[1]) != baseRank ==> now == t.(b := t.b.(hand := [], talon := [h[1], h[0]] + t.b.talon)))
      && (|h| >= 3 && Rank(h[2]) != baseRank ==>
            now == t.(b := t.b.(hand := h[3..], talon := [h[2], h[1], h[0]] + t.b.talon)))
  {
    hide Rank, BasesGone;
    var h := t.b.hand;
    var n := if |h| >= 3 then 3 else |h|;
    assert h[n..] == if n < |h| then h[n..] else [];
    ReversedFew(h[..n]);
    var b := t.b.(hand := h[n..], talon := Reversed(h[..n]) + t.b.talon);
    if Rank(h[n - 1]) != baseRank {
      NoBaseOnTop(b, Talon, t.base, baseRank);
    }
  }

  lemma ReversedFew(s: seq<Card>)
    ensures |s| == 1 ==> Reversed(s) == [s[0]]
    ensures |s| == 2 ==> Reversed(s) == [s[1], s[0]]
    ensures |s| == 3 ==> Reversed(s) == [s[2], s[1], s[0]]
  {
    if |s| == 3 {
      assert s[1..][1..] == [s[2]] && Reversed([s[2]]) == [s[2]];
    }
  }

  /** The talon is turned over as it is three times; the fourth time the game is over. */
  lemma {:induction false} TurnedOver(t: Table, baseRank: nat)
    requires t.b.Ok() && t.b.hand == [] && t.b.talon != []
    ensures var now := Dealt(t, baseRank);
      && now.timesthru == t.timesthru + 1
      && (t.timesthru == 3 ==> now == t.(timesthru := 4, done := true))
      && (t.timesthru != 3 ==> now == Dealt(t.(b := t.b.(hand := Reversed(t.b.talon), talon := []),
                                               timesthru := t.timesthru + 1), baseRank))
  {
    hide BasesGone, Reversed;
  }

  /** Turned over, the lowest card comes first. */
  lemma {:induction false} ReversedAt(s: seq<Card>, k: nat)
    requires k < |s|
    ensures Reversed(s)[k] == s[|s| - 1 - k]
  {
    if k < |s| - 1 {
      ReversedAt(s[1..], k);
    }
  }

  /** The command would move a column onto an empty one. */
  predicate OntoEmpty(b: Board, cmd: Command) {
    && cmd.Columns? && cmd.sour < |b.tableau| && cmd.des < |b.tableau|
    && b.tableau[cmd.sour] != [] && b.tableau[cmd.des] == [] && b.stock == []
  }

  /** What a command does. */
  function Obeyed(t: Table, cmd: Command, baseRank: nat): (r: Table)
    requires t.b.Ok() && cmd.Ok()
    ensures r.b.Ok()
  {
    match cmd
    case ToFoundation(p) =>
      var k := FitFrom(t.b, p, 0);
      if k < 4 then t.(b := ToFound(t.b, p, k), timesthru := 0) else t
    case ToTableau(p, des) =>
      if t.b.Get(p) != [] && TabOkOn(t.b, t.b.Get(p)[0], des) then t.(b := ToColumn(t.b, p, des), timesthru := 0) else t
    case Columns(sour, des) =>
      var s := t.b.tableau[sour];
      if s != [] && TabOkOn(t.b, s[|s| - 1], des) then t.(b := Joined(t.b, sour, des), timesthru := 0) else t
    case HandToTalon(buys) =>
      if !t.infullgame && !buys then t.(done := true) else Dealt(t.(infullgame := true), baseRank)
    case Counting => t.(counting := !t.counting)
    case Quit => t.(done := true)
  }

  lemma TurnIs(t: Table, cmd: Command, baseRank: nat)
    requires t.b.Ok() && cmd.Ok()
    ensures var first := if t.b.talon == [] && t.b.hand != [] then Dealt(t, baseRank) else t;
      var second := if Count(first.b.found) == 52 then first.(done := true) else Obeyed(first, cmd, baseRank);
      AfterTurn(t, cmd, baseRank) == Cleared(Cleared(second, Stock, baseRank), Talon, baseRank)
  {
  }

  /** Only the command `c` turns counting on or off, and it does unless the game is over. */
  lemma {:induction false} CountingAfter(t: Table, cmd: Command, baseRank: nat)
    requires t.b.Ok() && cmd.Ok()
    ensures var now := AfterTurn(t, cmd, baseRank);
      if cmd.Counting? then now.done || now.counting == !t.counting else now.counting == t.counting
  {
    hide BasesGone, Count;
  }

  /**
   * An empty talon is filled before the command is obeyed, and only then; with all cards off the
   * game is over, and the command is not obeyed.
   */
  lemma {:induction false} FilledFirst(t: Table, cmd: Command, baseRank: nat)
    requires t.b.Ok() && cmd.Ok()
    ensures var dealt := Dealt(t, baseRank);
      t.b.talon == [] && t.b.hand != [] && dealt.b.talon != [] ==>
        AfterTurn(t, cmd, baseRank) == AfterTurn(dealt, cmd, baseRank)
    ensures t.b.talon != [] && TopIsNot(t.b.talon, baseRank) && TopIsNot(t.b.stock, baseRank) ==>
      AfterTurn(t, Quit, baseRank) == t.(done := true)
    ensures t.b.talon != [] && TopIsNot(t.b.talon, baseRank) && TopIsNot(t.b.stock, baseRank) ==>
      (Count(t.b.found) == 52 ==> AfterTurn(t, cmd, baseRank) == t.(done := true))
  {
    hide Dealt, Count;
    NothingCleared(t.(done := true), baseRank);
  }

  predicate TopIsNot(s: seq<Card>, baseRank: nat) {
    s != [] ==> Rank(s[0]) != baseRank
  }

  lemma {:induction false} NothingCleared(t: Table, baseRank: nat)
    requires t.b.Ok()
    ensures TopIsNot(t.b.stock, baseRank) ==> Cleared(t, Stock, baseRank) == t
    ensures TopIsNot(t.b.talon, baseRank) ==> Cleared(t, Talon, baseRank) == t
  {
    if TopIsNot(t.b.stock, baseRank) {
      NoBaseOnTop(t.b, Stock, t.base, baseRank);
    }
    if TopIsNot(t.b.talon, baseRank) {
      NoBaseOnTop(t.b, Talon, t.base, baseRank);
    }
  }

  /** The first cards from the hand have to be bought, or the game is over; after that they come by themselves. */
  lemma {:induction false} BoughtOrOver(t: Table, buys: bool, baseRank: nat)
    requires t.b.Ok()
    ensures var now := Obeyed(t, Command.HandToTalon(buys), baseRank);
      && (!t.infullgame && !buys ==> now == t.(done := true))
      && (t.infullgame ==> now == Dealt(t, baseRank))
      && (!t.infullgame && buys ==> now.infullgame && now.b == Dealt(t, baseRank).b)
  {
    hide BasesGone, Reversed;
  }

  /** How often counting is turned on or off. */
  function Toggles(cmds: seq<Command>): nat {
    if cmds == [] then 0 else Toggles(cmds[..|cmds| - 1]) + if cmds[|cmds| - 1].Counting? then 1 else 0
  }

  lemma PlainCommands(t: Table, baseRank: nat)
    requires t.b.Ok()
    ensures Obeyed(t, Command.Counting, baseRank) == t.(counting := !t.counting)
    ensures Obeyed(t, Command.Quit, baseRank) == t.(done := true)
  {
  }

  /** One turn: an empty talon is filled, the command is obeyed, and base cards in view go. */
  function AfterTurn(t: Table, cmd: Command, baseRank: nat): (r: Table)
    requires t.b.Ok() && cmd.Ok()
    ensures r.b.Ok()
  {
    var first := if t.b.talon == [] && t.b.hand != [] then Dealt(t, baseRank) else t;
    var second := if Count(first.b.found) == 52 then first.(done := true) else Obeyed(first, cmd, baseRank);
    Cleared(Cleared(second, Stock, baseRank), Talon, baseRank)
  }

  function AfterTurns(t: Table, cmds: seq<Command>, baseRank: nat): (r: Table)
    requires t.b.Ok() && forall i :: 0 <= i < |cmds| ==> cmds[i].Ok()
    ensures r.b.Ok()
  {
    if cmds == [] then t else AfterTurn(AfterTurns(t, cmds[..|cmds| - 1], baseRank), cmds[|cmds| - 1], baseRank)
  }

  // ----- the start

  /** Every card once. */
  ghost predicate FullDeck(deck: seq<Card>) {
    |deck| == 52 && forall c: Card :: Times(deck, c) == 1
  }

  function StartBoard(deck: seq<Card>): Board
    requires |deck| == 52
  {
    Board(deck[18..], [], Reversed(deck[..13]), [[deck[13]], [], [], []],
          [[deck[14]], [deck[15]], [deck[16]], [deck[17]]])
  }

  function StartTable(deck: seq<Card>, counts: bool): (t: Table)
    requires |deck| == 52
    ensures t.b.Ok()
  {
    Table(StartBoard(deck), 0, 0, false, false, counts)
  }

  function ColumnsCleared(t: Table, n: nat, baseRank: nat): (r: Table)
    requires t.b.Ok() && n <= 4
    ensures r.b.Ok()
  {
    if n == 0 then t else Cleared(ColumnsCleared(t, n - 1, baseRank), Column(n - 1), baseRank)
  }

  /** The opening: base cards in view go, and the first cards are dealt. */
  function Started(t: Table, baseRank: nat): (r: Table)
    requires t.b.Ok()
    ensures r.b.Ok()
  {
    Dealt(Cleared(ColumnsCleared(t, 4, baseRank), Stock, baseRank), baseRank)
  }

  function StartBottom(deck: seq<Card>): seq<Option<Card>>
    requires |deck| == 52
  {
    [Some(deck[14]), Some(deck[15]), Some(deck[16]), Some(deck[17])]
  }

  lemma {:induction false} ReversedTimes(s: seq<Card>, c: Card)
    ensures Times(Reversed(s), c) == Times(s, c)
  {
    if s != [] {
      ReversedTimes(s[1..], c);
      TopTimes(s, c);
      JoinTimes(Reversed(s[1..]), [s[0]], c);
    }
  }

  lemma {:induction false} FourPiles(a: seq<Card>, b: seq<Card>, c: seq<Card>, d: seq<Card>, x: Card)
    ensures TimesIn([a, b, c, d], x) == Times(a, x) + Times(b, x) + Times(c, x) + Times(d, x)
    ensures Count([a, b, c, d]) == |a| + |b| + |c| + |d|
  {
    OneMorePile([], a, x);
    OneMorePile([a], b, x);
    OneMorePile([a, b], c, x);
    OneMorePile([a, b, c], d, x);
    assert [] + [a] == [a] && [a] + [b] == [a, b] && [a, b] + [c] == [a, b, c] && [a, b, c] + [d] == [a, b, c, d];
  }

  lemma {:induction false} OneMorePile(piles: seq<seq<Card>>, p: seq<Card>, x: Card)
    ensures TimesIn(piles + [p], x) == TimesIn(piles, x) + Times(p, x)
    ensures Count(piles + [p]) == Count(piles) + |p|
  {
    assert (piles + [p])[..|piles|] == piles;
  }

  lemma {:induction false} SplitOff(s: seq<Card>, k: nat, c: Card)
    requires k < |s|
    ensures Times(s[k..], c) == Times([s[k]], c) + Times(s[k + 1..], c)
  {
    assert s[k..] == [s[k]] + s[k + 1..];
  }

  lemma {:induction false} StartSplit(deck: seq<Card>, c: Card)
    requires |deck| == 52
    ensures Times(deck, c) == Times(deck[..13], c) + Times([deck[13]], c) + Times([deck[14]], c) + Times([deck[15]], c)
      + Times([deck[16]], c) + Times([deck[17]], c) + Times(deck[18..], c)
  {
    hide Times;
    SplitOff(deck, 17, c);
    SplitOff(deck, 16, c);
    SplitOff(deck, 15, c);
    SplitOff(deck, 14, c);
    SplitOff(deck, 13, c);
    assert deck == deck[..13] + deck[13..];
    JoinTimes(deck[..13], deck[13..], c);
  }

  lemma {:induction false} StartTimes(deck: seq<Card>, c: Card)
    requires |deck| == 52
    ensures StartBoard(deck).TimesAll(c) == Times(deck, c)
  {
    assert Times([], c) == 0;
    hide Times, TimesIn, Reversed;
    StartSplit(deck, c);
    ReversedTimes(deck[..13], c);
    FourPiles([deck[13]], [], [], [], c);
    FourPiles([deck[14]], [deck[15]], [deck[16]], [deck[17]], c);
  }

  lemma {:induction false} StartColumns(deck: seq<Card>)
    requires |deck| == 52
    ensures |StartBoard(deck).stock| == 13 && |StartBoard(deck).hand| == 34 && StartBoard(deck).talon == []
    ensures |StartBoard(deck).tableau| == 4 && StartBoard(deck).hand == deck[18..]
    ensures forall i :: 0 <= i < 4 ==> |StartBoard(deck).tableau[i]| == 1 && Ladder(StartBoard(deck).tableau[i])
  {
  }

  lemma {:induction false} StartBoardOk(deck: seq<Card>)
    requires FullDeck(deck)
    ensures BoardOk(StartBoard(deck), StartBottom(deck), 0, Rank(deck[13]))
    ensures Count(StartBoard(deck).found) == 1
  {
    var b := StartBoard(deck);
    forall c: Card
      ensures b.TimesAll(c) == 1
    {
      StartTimes(deck, c);
    }
    FourPiles([deck[13]], [], [], [], 0);
    assert Building([deck[13]], Rank(deck[13]));
  }

  function Members(s: seq<Card>): (m: set<Card>)
    ensures forall c :: c in m <==> c in s
  {
    if s == [] then {} else Members(s[1..]) + {s[0]}
  }

  lemma {:induction false} MembersCounted(s: seq<Card>)
    requires forall c: Card :: Times(s, c) <= 1
    ensures |Members(s)| == |s|
  {
    if s != [] {
      forall c: Card
        ensures Times(s[1..], c) <= 1
      {
        TopTimes(s, c);
      }
      MembersCounted(s[1..]);
      TopTimes(s, s[0]);
      assert s[0] !in s[1..];
    }
  }

  /** The hand at the start has 34 cards, none of which is in view. */
  lemma {:induction false} DealtApart(deck: seq<Card>)
    requires FullDeck(deck)
    ensures |Members(deck[18..])| == 34 && Members(deck[..18]) * Members(deck[18..]) == {}
  {
    assert deck == deck[..18] + deck[18..];
    forall c: Card
      ensures Times(deck[18..], c) <= 1 && !(c in deck[..18] && c in deck[18..])
    {
      JoinTimes(deck[..18], deck[18..], c);
    }
    MembersCounted(deck[18..]);
  }

  // ----- the deck

  /** `initdeck`: suit by suit, rank by rank. */
  method InitDeck() returns (deck: array<Card>)
    ensures fresh(deck) && FullDeck(deck[..])
  {
    deck := new Card[52](_ => 0);
    var i := 0;
    for scnt := 0 to 4
      invariant i == 13 * scnt && forall k :: 0 <= k < i ==> deck[k] == k
    {
      for r := ACE to KING + 1
        invariant i == 13 * scnt + r - 1 && forall k :: 0 <= k < i ==> deck[k] == k
      {
        deck[i] := i;
        assert Suit(deck[i]) == scnt && Rank(deck[i]) == r;
        i := i + 1;
      }
    }
    forall c: Card
      ensures Times(deck[..], c) == 1
    {
      InOrderTimes(deck[..], c);
    }
  }

  lemma {:induction false} InOrderTimes(s: seq<Card>, c: Card)
    requires |s| <= 52 && forall k :: 0 <= k < |s| ==> s[k] == k
    ensures Times(s, c) == if c < |s| then 1 else 0
  {
    if s != [] {
      var front := s[..|s| - 1];
      InOrderTimes(front, c);
      assert s == front + [s[|s| - 1]];
      JoinTimes(front, [s[|s| - 1]], c);
    }
  }

  /** `shuffle`, for any random numbers: every card is still there once. */
  method Shuffle(deck: array<Card>, draws: seq<nat>)
    requires deck.Length == 52 && |draws| == 52 && FullDeck(deck[..])
    modifies deck
    ensures FullDeck(deck[..])
  {
    var i := 51;
    while i >= 0
      invariant -1 <= i <= 51 && multiset(deck[..]) == multiset(old(deck[..]))
    {
      var j := draws[51 - i] % 52;
      if i != j {
        deck[i], deck[j] := deck[j], deck[i];
      }
      i := i - 1;
    }
    forall c: Card
      ensures Times(deck[..], c) == 1
    {
      assert Times(old(deck[..]), c) == 1;
    }
  }

  // ----- money

  ghost predicate AllIn(s: seq<Card>, dealt: set<Card>) {
    forall c :: c in s ==> c in dealt
  }

  /** The cards of a pile that are in view are paid for. */
  ghost predicate InViewPaid(s: seq<Card>, visible: set<Card>, paid: set<Card>) {
    forall c :: c in s && c in visible ==> c in paid
  }

  lemma SeenAndPaid(s: seq<Card>, visible: set<Card>, paid: set<Card>, c: Card)
    ensures InViewPaid(s, visible, paid) ==> InViewPaid(s, visible + {c}, paid + {c})
  {
  }

  lemma OneFewer(s: seq<Card>, dealt: set<Card>, visible: set<Card>, paid: set<Card>)
    requires s != []
    ensures AllIn(s, dealt) ==> AllIn(s[1..], dealt)
    ensures InViewPaid(s, visible, paid) ==> InViewPaid(s[1..], visible, paid)
  {
  }

  lemma {:induction false} Charged(paid: set<Card>, dealt: set<Card>, c: Card)
    requires c in dealt && c !in paid
    ensures |(paid + {c}) * dealt| == |paid * dealt| + 1
  {
    assert (paid + {c}) * dealt == paid * dealt + {c};
  }

  lemma {:induction false} AtMostDealt(paid: set<Card>, dealt: set<Card>)
    ensures |paid * dealt| <= |dealt|
  {
    SubsetSmaller(paid * dealt, dealt);
  }

  lemma {:induction false} SubsetSmaller(a: set<Card>, b: set<Card>)
    requires a <= b
    ensures |a| <= |b|
  {
    if a != {} {
      var x :| x in a;
      SubsetSmaller(a - {x}, b - {x});
    }
  }

  // ----- the game

  class Game {
    var hand: seq<Card>
    var talon: seq<Card>
    var stock: seq<Card>
    var found: seq<seq<Card>>
    var tableau: seq<seq<Card>>
    var bottom: seq<Option<Card>>
    var length: seq<int>
    var basecard: Card
    var base: int
    var cardsoff: int
    var cinhand: int
    var taloncnt: int
    var stockcnt: int
    var timesthru: int
    var done: bool
    var visible: set<Card>
    var paid: set<Card>
    var counting: bool       // Cflag
    var infullgame: bool
    var information: int
    var runs: int
    var wins: int
    ghost var dealt: set<Card>   // the cards of the hand when the game began

    function B(): Board
      reads this`hand, this`talon, this`stock, this`found, this`tableau
    {
      Board(hand, talon, stock, found, tableau)
    }

    function T(): Table
      reads this`hand, this`talon, this`stock, this`found, this`tableau
      reads this`base, this`timesthru, this`infullgame, this`done, this`counting
    {
      Table(B(), base, timesthru, infullgame, done, counting)
    }

    /**
     * `initgame` on a shuffled deck: thirteen cards for the stock, one for the foundation, four
     * for the columns, and the rest for the hand.
     */
    constructor (deck: seq<Card>, counts: bool)
      requires |deck| == 52 && FullDeck(deck)
      ensures Valid() && B() == StartBoard(deck) && basecard == deck[13]
      ensures counting == counts && dealt == Members(deck[18..]) && T() == StartTable(deck, counts)
    {
      hide BoardOk, Count, Members, Ladder, Information, Account;
      hide StartBoard, StartBottom, FullDeck, Reversed, Times, TimesIn;
      var b := StartBoard(deck);
      visible, paid := Members(deck[..18]), Members(deck[..18]);
      stockcnt := 13;
      stock, found, basecard := b.stock, b.found, deck[13];
      tableau, bottom := b.tableau, StartBottom(deck);
      length := [TABROW, TABROW, TABROW, TABROW];
      hand, talon := b.hand, b.talon;
      base, cinhand, taloncnt, timesthru, cardsoff := 0, 34, 0, 0, 1;
      runs, information, wins := 0, 0, 0;
      infullgame, done, counting := false, false, counts;
      dealt := Members(deck[18..]);
      new;
      StartBoardOk(deck);
      StartColumns(deck);
      DealtApart(deck);
      StartInformation();
    }

    lemma {:induction false} StartInformation()
      requires paid == visible && paid * dealt == {} && |dealt| == 34 && information == 0 && talon == []
      requires dealt == Members(hand)
      ensures Information()
    {
    }

    method ClearColumns()
      requires Valid() && talon == [] && forall i :: 0 <= i < 4 ==> |tableau[i]| <= 1
      modifies this`talon, this`stock, this`tableau, this`length, this`taloncnt, this`stockcnt
      modifies this`visible, this`paid, this`information, this`found, this`base, this`cardsoff, this`wins
      ensures Valid() && talon == [] && NoBaseInColumns() && T() == ColumnsCleared(old(T()), 4, Rank(basecard))
    {
      hide Valid, Rank, Cleared, Clear, NoBaseInColumns;
      FourAndFour();
      var j := 0;
      while j < 4
        invariant 0 <= j <= 4 && Valid() && talon == [] && B().Ok()
        invariant T() == ColumnsCleared(old(T()), j, Rank(basecard))
        invariant forall i :: 0 <= i < 4 ==> |tableau[i]| <= 1 && (i < j ==> Clear(tableau[i]))
      {
        ClearColumn(j);
        j := j + 1;
      }
      AllClear();
    }

    lemma AllClear()
      requires B().Ok() && forall i :: 0 <= i < 4 ==> |tableau[i]| <= 1 && Clear(tableau[i])
      ensures NoBaseInColumns()
    {
    }

    method ClearColumn(j: nat)
      requires Valid() && B().Ok() && talon == [] && j < 4 && forall i :: 0 <= i < 4 ==> |tableau[i]| <= 1
      modifies this`talon, this`stock, this`tableau, this`length, this`taloncnt, this`stockcnt
      modifies this`visible, this`paid, this`information, this`found, this`base, this`cardsoff, this`wins
      ensures Valid() && B().Ok() && talon == [] && T() == Cleared(old(T()), Column(j), Rank(basecard))
      ensures |tableau[j]| <= 1 && Clear(tableau[j])
      ensures forall i :: 0 <= i < 4 && i != j ==> tableau[i] == old(tableau[i])
    {
      hide Valid, Rank, Cleared, Shortened;
      ghost var b := B();
      FndBase(Column(j), true);
      OtherColumns(b, B(), j);
      FourAndFour();
    }

    /** The rest of `startgame`: base cards go to the foundation, and the first cards to the talon. */
    method Start()
      requires Valid() && talon == [] && forall i :: 0 <= i < 4 ==> |tableau[i]| <= 1
      modifies this
      ensures Settled() && basecard == old(basecard) && dealt == old(dealt)
      ensures B().Ok() && T() == Started(old(T()), Rank(basecard))
    {
      hide Valid, Rank, Cleared, Dealt, Shortened, ColumnsCleared, NoneOfRank;
      FourAndFour();
      ClearColumns();
      FourAndFour();
      ClearStock();
      PayForView();
      MoveToTalon();
    }

    method ClearStock()
      requires Valid() && B().Ok() && NoBaseInColumns() && talon == []
      modifies this`talon, this`stock, this`tableau, this`length, this`taloncnt, this`stockcnt
      modifies this`visible, this`paid, this`information, this`found, this`base, this`cardsoff, this`wins
      ensures Valid() && B().Ok() && NoBaseInColumns() && talon == [] && Clear(stock)
      ensures T() == Cleared(old(T()), Stock, Rank(basecard))
    {
      hide Valid, Rank, Cleared, Shortened, NoneOfRank;
      ghost var b := B();
      FndBase(Stock, true);
      OnlyStock(b, B());
      FourAndFour();
    }

    method PayForView()
      requires Valid()
      modifies this`paid, this`information
      ensures Valid()
    {
      hide BoardOk, Counters, Columns, Information, Account, Winnings, Rank;
      Accounted();
      ShowStat();
    }

    /** The counters are the lengths of the piles; a column of n cards ends n - 1 rows below its first. */
    ghost predicate Counters()
      reads this`hand, this`talon, this`stock, this`tableau, this`cinhand, this`taloncnt, this`stockcnt, this`length
    {
      && cinhand == |hand| && taloncnt == |talon| && stockcnt == |stock|
      && |length| == 4 == |tableau|
      && forall i :: 0 <= i < 4 ==> length[i] == TABROW - 1 + |tableau[i]|
    }

    ghost predicate Columns()
      reads this`tableau
    {
      |tableau| == 4 && forall i :: 0 <= i < 4 ==> Ladder(tableau[i])
    }

    /** While cards are counted, every card of talon and hand that is in view is paid for. */
    ghost predicate Information()
      reads this`talon, this`hand, this`visible, this`paid, this`information, this`dealt, this`counting
    {
      Account() && (counting ==> AllPaid())
    }

    lemma Accounted()
      requires Information()
      ensures Account() && (counting ==> AllPaid())
    {
    }

    ghost predicate AllPaid()
      reads this`talon, this`hand, this`visible, this`paid
    {
      InViewPaid(talon, visible, paid) && InViewPaid(hand, visible, paid)
    }

    /** One dollar for each card of the hand that has been seen while cards were counted. */
    ghost predicate Account()
      reads this`talon, this`hand, this`visible, this`paid, this`information, this`dealt
    {
      && paid <= visible && information == |paid * dealt| && |dealt| == 34
      && AllIn(talon, dealt) && AllIn(hand, dealt)
    }

    ghost predicate Winnings()
      reads this`cardsoff, this`infullgame, this`wins, this`found
    {
      cardsoff == Count(found) && wins == if infullgame then VALUE_PER_CARD * cardsoff else 0
    }

    ghost predicate Valid()
      reads this
    {
      && BoardOk(B(), bottom, base, Rank(basecard))
      && Counters() && Columns() && Information() && Winnings()
    }

    lemma FourAndFour()
      requires Valid()
      ensures B().Ok() && 0 <= base <= 3
    {
    }

    /** The top card, if any, is not of the base rank. */
    ghost predicate Clear(s: seq<Card>)
      reads this`basecard
    {
      s != [] ==> Rank(s[0]) != Rank(basecard)
    }

    ghost predicate NoBaseInColumns()
      reads this`basecard, this`hand, this`talon, this`stock, this`found, this`tableau
    {
      NoBaseIn(B(), Rank(basecard))
    }

    /** Between two commands: no base card is left where it can be seen. */
    ghost predicate Settled()
      reads this
    {
      Valid() && NoBaseInColumns() && Clear(stock) && Clear(talon)
    }

    /** The information box never costs more than the hand has cards. */
    lemma {:induction false} InformationBound()
      requires Information()
      ensures 0 <= information <= 34
    {
      AtMostDealt(paid, dealt);
    }

    /** Pay for a card of the hand that has come into view. */
    method Pay(c: Card)
      requires Account() && c in dealt && c in visible && c !in paid
      modifies this`paid, this`information
      ensures Account() && paid == old(paid) + {c}
    {
      Charged(paid, dealt, c);
      information := information + 1;
      paid := paid + {c};
    }

    /** `usedtalon`, after the top card has gone: the next one becomes visible. */
    method UsedTalon()
      requires Information() && taloncnt == |talon| + 1
      modifies this`visible, this`paid, this`information, this`taloncnt
      ensures Information() && taloncnt == |talon|
      ensures visible == old(visible) + (if talon == [] then {} else {talon[0]})
      ensures paid == old(paid) + if counting && talon != [] && talon[0] !in old(visible) then {talon[0]} else {}
    {
      hide Information;
      taloncnt := taloncnt - 1;
      if talon != [] && talon[0] !in visible {
        ComesIntoView(talon[0]);
      } else {
        assert talon != [] ==> visible + {talon[0]} == visible;
        assert visible + {} == visible && paid + {} == paid;
      }
    }

    /** A card is seen for the first time. */
    method ComesIntoView(c: Card)
      requires Information() && c in talon && c !in visible
      modifies this`visible, this`paid, this`information
      ensures Information() && visible == old(visible) + {c}
      ensures paid == old(paid) + if counting then {c} else {}
    {
      assert c in dealt && c !in paid;
      hide AllIn, InViewPaid;
      SeenAndPaid(talon, visible, paid, c);
      SeenAndPaid(hand, visible, paid, c);
      visible := visible + {c};
      if counting {
        Pay(c);
      }
    }

    method TakeTalon() returns (c: Card)
      requires Counters() && Information() && talon != []
      modifies this`talon, this`taloncnt, this`visible, this`paid, this`information
      ensures c == old(talon[0]) && talon == old(talon[1..]) && Counters() && Information()
    {
      hide AllIn, InViewPaid;
      OneFewer(talon, dealt, visible, paid);
      c := talon[0];
      talon := talon[1..];
      UsedTalon();
    }

    /** The top card of a pile is taken off, and the pile's counter follows. */
    method TakeTop(p: Pile) returns (c: Card)
      requires Counters() && Columns() && Information()
      requires (p.Column? ==> p.i < 4) && B().Get(p) != []
      modifies this`talon, this`stock, this`tableau, this`length, this`taloncnt, this`stockcnt
      modifies this`visible, this`paid, this`information
      ensures var s := old(B().Get(p)); c == s[0] && B() == old(B()).Set(p, s[1..])
      ensures Counters() && Columns() && Information()
    {
      match p {
        case Stock =>
          c := stock[0];
          stock := stock[1..];
          stockcnt := stockcnt - 1;
        case Talon =>
          c := TakeTalon();
        case Column(i) =>
          hide Information, Account;
          c := tableau[i][0];
          tableau := tableau[i := tableau[i][1..]];
          length := length[i := length[i] - 1];
      }
    }

    /** `transit` from a pile to a foundation pile, with the bookkeeping for the former. */
    method Transit(p: Pile, k: nat)
      requires Counters() && Columns() && Information() && CanMove(B(), p, k)
      modifies this`talon, this`stock, this`tableau, this`length, this`taloncnt, this`stockcnt
      modifies this`visible, this`paid, this`information, this`found
      ensures B() == ToFound(old(B()), p, k) && Counters() && Columns() && Information()
    {
      hide Counters, Columns, Information, Account;
      var c := TakeTop(p);
      found := found[k := [c] + found[k]];
    }

    /** A card taken from a pile is put on foundation pile k, where it fits; `grown` says that this starts the pile. */
    method ToFoundation(p: Pile, k: nat, grown: bool)
      requires Valid() && Fits(B(), p, k, base, grown, Rank(basecard))
      modifies this`talon, this`stock, this`tableau, this`length, this`taloncnt, this`stockcnt
      modifies this`visible, this`paid, this`information, this`found, this`base, this`cardsoff, this`wins
      ensures Valid() && B() == ToFound(old(B()), p, k)
      ensures base == if grown then old(base) + 1 else old(base)
    {
      hide BoardOk, Counters, Columns, Information, Account, Count, Rank, Fits, ToFound, Board.Get;
      ToFoundOk(B(), bottom, p, k, base, grown, Rank(basecard));
      Transit(p, k);
      if grown {
        base := base + 1;
      }
      cardsoff := cardsoff + 1;
      if infullgame {
        wins := wins + VALUE_PER_CARD;
      }
    }

    /** One pass of the loop of `fndbase`. */
    method StartFoundation(p: Pile, ghost was: Board)
      requires Valid() && B().Ok() && Shortened(was, B(), p)
      requires B().Get(p) != [] && Rank(B().Get(p)[0]) == Rank(basecard)
      modifies this`talon, this`stock, this`tableau, this`length, this`taloncnt, this`stockcnt
      modifies this`visible, this`paid, this`information, this`found, this`base, this`cardsoff, this`wins
      ensures Valid() && B().Ok() && Shortened(was, B(), p) && |B().Get(p)| < |old(B().Get(p))|
      ensures BasesGone(B(), p, base, Rank(basecard)) == old(BasesGone(B(), p, base, Rank(basecard)))
    {
      OneMoreBase(p);
      ShortenedMore(was, B(), p, base + 1);
      hide BoardOk, Counters, Columns, Information, Account, Winnings, Shortened, Rank;
      ToFoundation(p, base + 1, true);
      FourAndFour();
    }

    /**
     * `fndbase`: base cards on top of a pile start foundation piles; if none is there nothing
     * happens, whatever state the rest is in.
     */
    method FndBase(p: Pile, ghost ok: bool)
      requires (p.Column? ==> p.i < 4) && B().Ok() && if ok then Valid() else Clear(B().Get(p))
      modifies this`talon, this`stock, this`tableau, this`length, this`taloncnt, this`stockcnt
      modifies this`visible, this`paid, this`information, this`found, this`base, this`cardsoff, this`wins
      ensures T() == Cleared(old(T()), p, Rank(basecard))
      ensures if ok then Valid() else unchanged(this)
      ensures Clear(B().Get(p)) && Shortened(old(B()), B(), p)
    {
      if B().Get(p) == [] || Rank(B().Get(p)[0]) != Rank(basecard) {
        ShortenedNot(B(), p);
        NoBaseOnTop(B(), p, base, Rank(basecard));
        return;
      }
      StartFoundations(p);
    }

    /** The loop of `fndbase`. */
    method StartFoundations(p: Pile)
      requires (p.Column? ==> p.i < 4) && B().Ok() && Valid()
      modifies this`talon, this`stock, this`tableau, this`length, this`taloncnt, this`stockcnt
      modifies this`visible, this`paid, this`information, this`found, this`base, this`cardsoff, this`wins
      ensures T() == Cleared(old(T()), p, Rank(basecard))
      ensures Valid() && Clear(B().Get(p)) && Shortened(old(B()), B(), p)
    {
      hide BoardOk, Counters, Columns, Information, Account, Winnings, Shortened, BasesGone, Rank;
      ShortenedNot(B(), p);
      while B().Get(p) != [] && Rank(B().Get(p)[0]) == Rank(basecard)
        invariant B().Ok() && Valid() && Shortened(old(B()), B(), p)
        invariant BasesGone(B(), p, base, Rank(basecard)) == BasesGone(old(B()), p, old(base), Rank(basecard))
        decreases |B().Get(p)|
      {
        StartFoundation(p, old(B()));
      }
      NoBaseOnTop(B(), p, base, Rank(basecard));
    }

    /** A base card that is still in a pile has a foundation pile to start: `base` never gets beyond 3. */
    lemma {:induction false} OneMoreBase(p: Pile)
      requires Valid() && (p.Column? ==> p.i < 4) && B().Get(p) != [] && Rank(B().Get(p)[0]) == Rank(basecard)
      ensures 0 <= base < 3 && CanMove(B(), p, base + 1) && Fits(B(), p, base + 1, base, true, Rank(basecard))
    {
      if base == 3 {
        NoFifthBase(B(), p, Rank(basecard));
      }
    }

    /** `movetofound`: the top card goes onto the first foundation pile where it fits. */
    method MoveToFound(p: Pile) returns (moved: bool, k: nat)
      requires Valid() && (p.Column? ==> p.i < 4)
      modifies this`talon, this`stock, this`tableau, this`length, this`taloncnt, this`stockcnt, this`timesthru
      modifies this`visible, this`paid, this`information, this`found, this`base, this`cardsoff, this`wins
      ensures Valid()
      ensures moved ==> Fits(old(B()), p, k, base, false, Rank(basecard)) && B() == ToFound(old(B()), p, k)
      ensures moved ==> forall j :: 0 <= j < k ==> !Fits(old(B()), p, j, base, false, Rank(basecard))
      ensures old(NoBaseInColumns()) ==> NoBaseInColumns()
      ensures !moved ==> B() == old(B()) && forall j :: 0 <= j < 4 ==> !Fits(B(), p, j, base, false, Rank(basecard))
      ensures base == old(base) && (moved ==> k < 4) && timesthru == if moved then 0 else old(timesthru)
    {
      hide BoardOk, Counters, Columns, Information, Account, Winnings, RankHigher, Suit, Rank;
      moved, k := false, 0;
      FourAndFour();
      if B().Get(p) == [] {
        return;
      }
      while k < 4
        invariant 0 <= k <= 4
        invariant forall j :: 0 <= j < k ==> !Fits(B(), p, j, base, false, Rank(basecard))
      {
        if found[k] != [] && RankHigher(B().Get(p)[0], found[k][0]) && Suit(B().Get(p)[0]) == Suit(found[k][0]) {
          ToFoundation(p, k, false);
          timesthru := 0;
          return true, k;
        }
        k := k + 1;
      }
    }

    /** `simpletableau`: from the stock or the talon to a column. */
    method SimpleTableau(p: Pile, des: nat) returns (moved: bool)
      requires Valid() && !p.Column? && des < 4
      modifies this`talon, this`stock, this`tableau, this`length, this`taloncnt, this`stockcnt, this`timesthru
      modifies this`visible, this`paid, this`information, this`bottom
      ensures Valid() && moved == (old(B().Get(p)) != [] && old(TabOkOn(B(), B().Get(p)[0], des)))
      ensures B() == if moved then ToColumn(old(B()), p, des) else old(B())
      ensures timesthru == if moved then 0 else old(timesthru)
      ensures old(NoBaseInColumns() && Clear(B().Get(p))) ==> NoBaseInColumns()
    {
      hide BoardOk, Counters, Columns, Information, Account, Winnings, TabOkOn, ToColumn, NoBaseIn, Rank;
      FourAndFour();
      if B().Get(p) == [] || !TabOkOn(B(), B().Get(p)[0], des) {
        return false;
      }
      CardToColumn(p, des);
      moved := true;
    }

    lemma ColumnGrows(p: Pile, des: nat)
      requires Valid() && CanMove(B(), p, des) && !p.Column? && TabOkOn(B(), B().Get(p)[0], des)
      ensures |bottom| == 4 && Ladder([B().Get(p)[0]] + tableau[des])
      ensures var low := if tableau[des] == [] then bottom[des := Some(B().Get(p)[0])] else bottom;
        BoardOk(ToColumn(B(), p, des), low, base, Rank(basecard))
      ensures NoBaseInColumns() && Clear(B().Get(p)) ==> NoBaseIn(ToColumn(B(), p, des), Rank(basecard))
    {
      hide Counters, Information, Account, Winnings, Ladder, TabOkOn, Rank, ToColumn, NoBaseIn, Foundations;
      NoBaseAdded(B(), p, des, Rank(basecard));
      ToColumnOk(B(), bottom, p, des, base, Rank(basecard));
      ColumnFits(B(), p, des);
    }

    /** The move of `simpletableau`. */
    method CardToColumn(p: Pile, des: nat)
      requires Valid() && CanMove(B(), p, des) && !p.Column? && TabOkOn(B(), B().Get(p)[0], des)
      modifies this`talon, this`stock, this`tableau, this`length, this`taloncnt, this`stockcnt, this`timesthru
      modifies this`visible, this`paid, this`information, this`bottom
      ensures Valid() && B() == ToColumn(old(B()), p, des) && timesthru == 0
      ensures old(NoBaseInColumns() && Clear(B().Get(p))) ==> NoBaseInColumns()
    {
      hide BoardOk, Counters, Columns, Information, Account, Winnings, Ladder, TabOkOn, Rank, ToColumn, NoBaseIn;
      ColumnGrows(p, des);
      if tableau[des] == [] {
        bottom := bottom[des := Some(B().Get(p)[0])];
      }
      TransitToColumn(p, des);
      timesthru := 0;
    }

    /** `transit` to a column, with the bookkeeping for both. */
    method TransitToColumn(p: Pile, des: nat)
      requires Counters() && Columns() && Information() && !p.Column? && CanMove(B(), p, des)
      requires Ladder([B().Get(p)[0]] + tableau[des])
      modifies this`talon, this`stock, this`tableau, this`length, this`taloncnt, this`stockcnt
      modifies this`visible, this`paid, this`information
      ensures B() == ToColumn(old(B()), p, des) && Counters() && Columns() && Information()
    {
      hide Information, Account, Ladder;
      var c := TakeTop(p);
      tableau := tableau[des := [c] + tableau[des]];
      length := length[des := length[des] + 1];
    }

    /**
     * `tabtotab`: a whole column goes onto another. All is well unless the other column is
     * empty: the lowest card there is then not recorded.
     */
    method TabToTab(sour: nat, des: nat) returns (moved: bool)
      requires Valid() && NoBaseInColumns() && sour < 4 && des < 4
      modifies this`tableau, this`length, this`timesthru, this`bottom
      ensures moved == old(tableau[sour] != [] && TabOkOn(B(), tableau[sour][|tableau[sour]| - 1], des))
      ensures B() == if moved then Joined(old(B()), sour, des) else old(B())
      ensures timesthru == if moved then 0 else old(timesthru)
      ensures moved ==> sour != des
      ensures B().Partition() && Counters() && Columns() && NoBaseInColumns()
      ensures Valid() <==> !(moved && old(tableau[des]) == [])
    {
      hide BoardOk, Board.Partition, Ladder, Rank, TabOkOn, NoBaseIn, Joined;
      hide Information, Account, Winnings, Counters, Columns;
      LowestCards();
      if tableau[sour] == [] {
        return false;
      }
      var c := bottom[sour].value;
      if !TabOkOn(B(), c, des) {
        return false;
      }
      ColumnsJoin(sour, des);
      bottom := bottom[sour := None];
      JoinColumns(sour, des);
      timesthru := 0;
      moved := true;
    }

    lemma LowestCards()
      requires Valid()
      ensures B().Ok() && |bottom| == 4 && B().Partition()
      ensures forall i :: 0 <= i < 4 && tableau[i] != [] ==> bottom[i] == Some(tableau[i][|tableau[i]| - 1])
    {
      forall i | 0 <= i < 4 && tableau[i] != []
        ensures bottom[i] == Some(tableau[i][|tableau[i]| - 1])
      {
        assert BottomOk(B(), bottom, i);
      }
    }

    lemma ColumnsJoin(sour: nat, des: nat)
      requires Valid() && NoBaseInColumns() && sour < 4 && des < 4 && tableau[sour] != [] && |bottom| == 4
      requires TabOkOn(B(), tableau[sour][|tableau[sour]| - 1], des)
      ensures sour != des && Ladder(tableau[sour] + tableau[des]) && Joined(B(), sour, des).Partition()
      ensures BoardOk(Joined(B(), sour, des), bottom[sour := None], base, Rank(basecard)) <==> tableau[des] != []
    {
      hide Counters, Information, Account, Winnings;
      hide Foundations, Bottoms, RankLower, DiffColor, Joined, Board.Partition;
      NotOntoItself(tableau[sour], Rank(basecard));
      if tableau[des] == [] {
        JoinedEmpty(B(), bottom, sour, des, base, Rank(basecard));
        assert tableau[sour] + tableau[des] == tableau[sour];
      } else {
        JoinedOk(B(), bottom, sour, des, base, Rank(basecard));
      }
    }

    method JoinColumns(sour: nat, des: nat)
      requires Counters() && Columns() && NoBaseInColumns() && sour < 4 && des < 4 && sour != des
      requires Ladder(tableau[sour] + tableau[des])
      modifies this`tableau, this`length
      ensures Counters() && Columns() && NoBaseInColumns() && B() == Joined(old(B()), sour, des)
    {
      hide Ladder;
      assert NoneOfRank(tableau[sour] + tableau[des], Rank(basecard)) by {
        assert NoneOfRank(tableau[sour], Rank(basecard)) && NoneOfRank(tableau[des], Rank(basecard));
      }
      hide NoneOfRank, Rank;
      assert Ladder([]) && NoneOfRank([], Rank(basecard)) by {
        EmptyColumn(Rank(basecard));
      }
      tableau := tableau[des := tableau[sour] + tableau[des]];
      tableau := tableau[sour := []];
      length := length[des := length[des] + (length[sour] - (TABROW - 1))];
      length := length[sour := TABROW - 1];
    }

    /** The lowest card of a column is not the top of the stock. */
    lemma {:induction false} NotTheStock(i: nat)
      requires BoardOk(B(), bottom, base, Rank(basecard)) && i < 4 && tableau[i] != []
      ensures stock != [] ==> stock[0] != tableau[i][|tableau[i]| - 1]
    {
      var s := tableau[i];
      MemberTimes(s, |s| - 1);
      TimesOfOne(tableau, i, s[|s| - 1]);
      if stock != [] {
        MemberTimes(stock, 0);
      }
      assert B().TimesAll(s[|s| - 1]) == 1;
    }

    /** One pass of the loop of `movetotalon` that deals; the last card dealt becomes visible. */
    method DealOne(last: bool)
      requires Information() && hand != []
      modifies this`hand, this`talon, this`visible, this`paid, this`information
      ensures Information() && talon == [old(hand[0])] + old(talon) && hand == old(hand[1..])
      ensures last ==> talon[0] in visible
    {
      ghost var was := hand;
      talon := [hand[0]] + talon;
      hand := hand[1..];
      if last {
        visible := visible + {talon[0]};
      }
      assert talon[0] in dealt && Account();
      if counting && talon[0] !in paid && talon[0] in visible {
        Pay(talon[0]);
      }
    }

    /** That loop. */
    method Deal(fin: nat)
      requires Information() && fin <= |hand|
      modifies this`hand, this`talon, this`visible, this`paid, this`information
      ensures Information() && hand == old(hand)[fin..] && talon == Reversed(old(hand)[..fin]) + old(talon)
      ensures SameCards(old(B()), B())
      ensures fin > 0 ==> talon != [] && talon[0] in visible
    {
      hide Information, Account, Over;
      ghost var h, t := hand, talon;
      OverStart(h, t);
      var i := 0;
      while i < fin
        invariant 0 <= i <= fin && Information() && Over(h, t, i, hand, talon) && |hand| == |h| - i
        invariant i == fin > 0 ==> talon != [] && talon[0] in visible
      {
        OverStep(h, t, i, hand, talon);
        DealOne(i == fin - 1);
        i := i + 1;
      }
      OverEnd(h, t, fin, hand, talon);
    }

    lemma {:induction false} OverEnd(h: seq<Card>, t: seq<Card>, i: nat, a: seq<Card>, b: seq<Card>)
      requires Over(h, t, i, a, b)
      ensures a == h[i..] && b == Reversed(h[..i]) + t
      ensures forall c: Card :: Times(a, c) + Times(b, c) == Times(h, c) + Times(t, c)
    {
    }

    /** The talon becomes the new hand. */
    method TurnOver()
      requires Information() && cinhand == |hand|
      modifies this`hand, this`talon, this`cinhand
      ensures Information() && hand == Reversed(old(talon)) + old(hand) && talon == [] && cinhand == |hand|
      ensures SameCards(old(B()), B())
    {
      hide Over;
      ghost var t, h := talon, hand;
      OverStart(t, h);
      ghost var n := 0;
      while talon != []
        invariant 0 <= n <= |t| && |talon| == |t| - n && cinhand == |hand|
        invariant Over(t, h, n, talon, hand)
        invariant Information()
        decreases |talon|
      {
        OverStep(t, h, n, talon, hand);
        hand, talon := [talon[0]] + hand, talon[1..];
        cinhand := cinhand + 1;
        n := n + 1;
      }
      OverEnd(t, h, n, talon, hand);
      assert t[..n] == t;
    }

    /** The loops of `showstat`: every card of talon and hand that is in view is paid for. */
    method ShowStat()
      requires Account()
      modifies this`paid, this`information
      ensures Information()
      ensures counting ==> forall c :: (c in talon || c in hand) && c in visible ==> c in paid
      ensures counting ==> forall c :: c in paid <==> c in old(paid) || ((c in talon || c in hand) && c in visible)
      ensures !counting ==> paid == old(paid) && information == old(information)
    {
      if !counting {
        return;
      }
      ShowPile(talon);
      ShowPile(hand);
    }

    method ShowPile(s: seq<Card>)
      requires Account() && forall c :: c in s ==> c in dealt
      modifies this`paid, this`information
      ensures Account()
      ensures forall c :: c in paid <==> c in old(paid) || (c in s && c in visible)
    {
      hide Account;
      var i := 0;
      while i < |s|
        invariant 0 <= i <= |s| && Account()
        invariant forall c :: c in paid <==> c in old(paid) || (c in s[..i] && c in visible)
      {
        if s[i] !in paid && s[i] in visible {
          assert s[i] in s;
          Pay(s[i]);
        }
        assert s[..i + 1] == s[..i] + [s[i]];
        i := i + 1;
      }
      assert s[..i] == s;
    }

    /** The talon is the new hand. */
    method TalonIsHand()
      requires Valid() && hand == []
      modifies this`hand, this`talon, this`cinhand, this`taloncnt, this`paid, this`information
      ensures Valid() && hand == Reversed(old(talon)) && talon == []
    {
      ghost var b := B();
      hide BoardOk, Columns, Winnings, Information, Account;
      TurnOver();
      HandTalonOk(b, B(), bottom, base, Rank(basecard));
      taloncnt := 0;
      Accounted();
      ShowStat();
    }

    /** The first part of `movetotalon`: how many cards are to be dealt; the talon may become the hand. */
    method CountForDeal() returns (fin: nat)
      requires Valid()
      modifies this`hand, this`talon, this`cinhand, this`taloncnt, this`timesthru, this`done, this`runs
      modifies this`paid, this`information
      ensures Valid() && fin == (if |hand| >= 3 then 3 else |hand|)
      ensures var again := old(hand) == [] && old(talon) != [] && old(timesthru) + 1 != 4;
        && hand == (if again then Reversed(old(talon)) else old(hand))
        && talon == (if again then [] else old(talon))
        && runs == old(runs) + (if again then 5 else 0)
      ensures done == (old(done) || (old(hand) == [] && old(talon) != [] && old(timesthru) + 1 == 4))
      ensures timesthru == if old(hand) == [] && old(talon) != [] then old(timesthru) + 1 else old(timesthru)
      ensures old(hand) == [] && old(talon) != [] && old(timesthru) + 1 == 4 ==> fin == 0
    {
      hide BoardOk, Columns, Winnings, Information, Account;
      if cinhand >= 3 {
        fin := 3;
      } else if cinhand > 0 {
        fin := cinhand;
      } else if talon != [] {
        timesthru := timesthru + 1;
        if timesthru != 4 {
          runs := runs + 5;
          TalonIsHand();
          fin := if cinhand >= 3 then 3 else cinhand;
        } else {
          fin := 0;
          done := true;
        }
      } else {
        fin := 0;
      }
    }

    /** `movetotalon`: up to three cards from the hand, and then base cards on the talon go. */
    method MoveToTalon()
      requires Valid()
      modifies this`hand, this`talon, this`cinhand, this`taloncnt, this`timesthru, this`done, this`runs
      modifies this`stock, this`tableau, this`length, this`stockcnt
      modifies this`visible, this`paid, this`information, this`found, this`base, this`cardsoff, this`wins
      ensures Valid() && tableau == old(tableau) && stock == old(stock)
      ensures old(Clear(talon)) ==> Clear(talon)
      ensures T() == Dealt(old(T()), Rank(basecard))
    {
      hide Shortened, BoardOk, Counters, Columns, Winnings, Information, Account, Cleared, Rank;
      FourAndFour();
      var fin := CountForDeal();
      if fin != 0 {
        DealAndClear(fin);
      }
    }

    /** Cards go to the talon, and then base cards on it go. */
    method DealAndClear(fin: nat)
      requires Valid() && B().Ok() && 0 < fin <= |hand|
      modifies this`hand, this`talon, this`cinhand, this`taloncnt
      modifies this`stock, this`tableau, this`length, this`stockcnt
      modifies this`visible, this`paid, this`information, this`found, this`base, this`cardsoff, this`wins
      ensures Valid() && tableau == old(tableau) && stock == old(stock) && Clear(talon)
      ensures var b := old(B()).(hand := old(hand)[fin..], talon := Reversed(old(hand)[..fin]) + old(talon));
        T() == Cleared(old(T()).(b := b), Talon, Rank(basecard))
    {
      hide Shortened, BoardOk, Counters, Columns, Winnings, Information, Account, Cleared, Rank;
      DealCards(fin);
      ghost var b := B();
      FndBase(Talon, true);
      OnlyTalon(b, B());
    }

    method DealCards(fin: nat)
      requires Valid() && 0 < fin <= |hand|
      modifies this`hand, this`talon, this`cinhand, this`taloncnt, this`visible, this`paid, this`information
      ensures Valid() && hand == old(hand)[fin..] && talon == Reversed(old(hand)[..fin]) + old(talon)
    {
      hide BoardOk, Columns, Winnings, Information, Account, SameCards, Reversed, Rank;
      ghost var b := B();
      Deal(fin);
      HandTalonOk(b, B(), bottom, base, Rank(basecard));
      cinhand := cinhand - fin;
      taloncnt := taloncnt + fin;
    }

    // ----- a run of the game

    /** The command `ht`: the first time the game has to be bought. */
    method HandToTalon(buys: bool)
      requires Valid() && NoBaseInColumns()
      modifies this
      ensures Valid() && NoBaseInColumns() && (old(Clear(talon)) ==> Clear(talon)) && stock == old(stock)
      ensures basecard == old(basecard) && dealt == old(dealt)
      ensures T() == Obeyed(old(T()), Command.HandToTalon(buys), Rank(basecard))
    {
      hide BoardOk, Counters, Columns, Information, Account, Rank, Dealt, NoneOfRank, Count;
      FourAndFour();
      if !infullgame && !buys {
        done := true;
        return;
      }
      if !infullgame {
        infullgame := true;
        wins := wins + VALUE_PER_CARD * cardsoff;
      }
      MoveToTalon();
    }

    /** The command `c`: counting is turned on, and what is in view paid for, or turned off. */
    method ToggleCounting()
      requires Information()
      modifies this`counting, this`paid, this`information
      ensures Information() && counting == !old(counting)
      ensures counting ==> forall c :: c in paid <==> c in old(paid) || ((c in talon || c in hand) && c in visible)
      ensures !counting ==> paid == old(paid) && information == old(information)
    {
      counting := !counting;
      if counting {
        ShowStat();
      }
    }

    /** The command that moves a column. */
    method MoveColumn(sour: nat, des: nat)
      requires Settled() && sour < 4 && des < 4
      modifies this`tableau, this`length, this`timesthru, this`bottom
      ensures T() == Obeyed(old(T()), Command.Columns(sour, des), Rank(basecard))
      ensures B().Ok() && NoBaseInColumns() && (Valid() <==> !old(OntoEmpty(B(), Command.Columns(sour, des))))
    {
      hide BoardOk, Counters, Information, Account, Winnings, Rank, Ladder, Joined, RankLower, DiffColor;
      FourAndFour();
      if tableau[sour] != [] {
        NotTheStock(sour);
      }
      var moved := TabToTab(sour, des);
    }

    /** The command that moves a card to the foundation. */
    method CardOff(p: Pile)
      requires Settled() && (p.Column? ==> p.i < 4)
      modifies this`talon, this`stock, this`tableau, this`length, this`taloncnt, this`stockcnt, this`timesthru
      modifies this`visible, this`paid, this`information, this`found, this`base, this`cardsoff, this`wins
      ensures Valid() && B().Ok() && NoBaseInColumns()
      ensures T() == Obeyed(old(T()), Command.ToFoundation(p), Rank(basecard))
    {
      hide BoardOk, Counters, Columns, Information, Account, Winnings, Rank, ToFound, FitFrom, Fits, NoBaseIn;
      FourAndFour();
      ghost var b := B();
      var moved, k := MoveToFound(p);
      FirstFit(b, p, base, Rank(basecard), moved, k);
      FourAndFour();
    }

    /** The command that moves a card to a column. */
    method CardOver(p: Pile, des: nat)
      requires Settled() && !p.Column? && des < 4
      modifies this`talon, this`stock, this`tableau, this`length, this`taloncnt, this`stockcnt, this`timesthru
      modifies this`visible, this`paid, this`information, this`bottom
      ensures Valid() && B().Ok() && NoBaseInColumns()
      ensures T() == Obeyed(old(T()), Command.ToTableau(p, des), Rank(basecard))
    {
      hide BoardOk, Counters, Columns, Information, Account, Winnings, Rank, ToColumn, TabOkOn, NoBaseIn;
      FourAndFour();
      var moved := SimpleTableau(p, des);
      FourAndFour();
    }

    /** A command; all is well unless a column goes onto an empty one. */
    method Execute(cmd: Command)
      requires Settled() && cmd.Ok()
      modifies this
      ensures T() == Obeyed(old(T()), cmd, Rank(basecard))
      ensures basecard == old(basecard) && dealt == old(dealt)
      ensures B().Ok() && NoBaseInColumns() && (Valid() <==> !old(OntoEmpty(B(), cmd)))
      ensures old(OntoEmpty(B(), cmd)) ==> stock == [] && Clear(talon)
    {
      hide BoardOk, Counters, Columns, Information, Account, Winnings, Rank, Obeyed, NoneOfRank;
      FourAndFour();
      PlainCommands(T(), Rank(basecard));
      match cmd {
        case ToFoundation(p) =>
          CardOff(p);
        case ToTableau(p, des) =>
          CardOver(p, des);
        case Columns(sour, des) =>
          MoveColumn(sour, des);
        case HandToTalon(buys) =>
          HandToTalon(buys);
        case Counting =>
          ToggleCounting();
        case Quit =>
          done := true;
      }
    }

    /**
     * One turn of the loop of `movecard`: the command is obeyed, and the whole state stays in
     * order if and only if it does not move a column onto an empty one.
     */
    method Turn(cmd: Command)
      requires Settled() && cmd.Ok()
      modifies this
      ensures T() == AfterTurn(old(T()), cmd, Rank(basecard))
      ensures if cmd.Counting? then done || counting == !old(counting) else counting == old(counting)
      ensures Settled() && counting ==> AllPaid()
      ensures B().Ok() && (Settled() <==> !old(OntoEmpty(B(), cmd)))
      ensures basecard == old(basecard) && dealt == old(dealt)
    {
      hide Valid, Rank, Obeyed, Dealt, Cleared, Count, NoBaseIn, OntoEmpty, AllPaid, AfterTurn;
      FourAndFour();
      CountingAfter(T(), cmd, Rank(basecard));
      FillTalon(cmd);
      ghost var ok := !OntoEmpty(B(), cmd);
      ExecuteOrEnd(cmd);
      Settle(ok);
      TurnIs(old(T()), cmd, Rank(basecard));
      if Settled() {
        SettledPaid();
      }
    }

    lemma SettledPaid()
      requires Settled()
      ensures counting ==> AllPaid()
    {
    }

    /** When all cards are off the game is over, whatever the command. */
    method ExecuteOrEnd(cmd: Command)
      requires Settled() && cmd.Ok() && B().Ok()
      modifies this
      ensures T() == if Count(old(found)) == 52 then old(T()).(done := true) else Obeyed(old(T()), cmd, Rank(basecard))
      ensures basecard == old(basecard) && dealt == old(dealt)
      ensures B().Ok() && NoBaseInColumns() && (Valid() <==> !old(OntoEmpty(B(), cmd)))
      ensures old(OntoEmpty(B(), cmd)) ==> stock == [] && Clear(talon)
    {
      hide BoardOk, Counters, Columns, Information, Account, Winnings, Rank, Obeyed, Count, NoBaseIn, OntoEmpty;
      CardsOff(cmd);
      if cardsoff == 52 {
        done := true;
      } else {
        Execute(cmd);
      }
    }

    /** An empty talon is filled. */
    method FillTalon(ghost cmd: Command)
      requires Settled()
      modifies this`hand, this`talon, this`cinhand, this`taloncnt, this`timesthru, this`done, this`runs
      modifies this`stock, this`tableau, this`length, this`stockcnt
      modifies this`visible, this`paid, this`information, this`found, this`base, this`cardsoff, this`wins
      ensures Settled() && B().Ok() && OntoEmpty(B(), cmd) == old(OntoEmpty(B(), cmd))
      ensures T() == if old(talon == [] && hand != []) then Dealt(old(T()), Rank(basecard)) else old(T())
    {
      hide BoardOk, Counters, Columns, Information, Account, Winnings, Rank, Dealt;
      FourAndFour();
      if talon == [] && hand != [] {
        MoveToTalon();
        FourAndFour();
      }
    }

    /** As long as there is a column the game is not over. */
    lemma CardsOff(cmd: Command)
      requires Valid()
      ensures B().Ok() && cardsoff == Count(B().found) && (OntoEmpty(B(), cmd) ==> cardsoff < 52)
    {
      if OntoEmpty(B(), cmd) {
        NotAllOff(B(), cmd.sour);
      }
    }

    /** The end of a turn: base cards on the stock and the talon go. */
    method Settle(ghost ok: bool)
      requires NoBaseInColumns() && B().Ok() && if ok then Valid() else stock == [] && Clear(talon)
      modifies this`talon, this`stock, this`tableau, this`length, this`taloncnt, this`stockcnt
      modifies this`visible, this`paid, this`information, this`found, this`base, this`cardsoff, this`wins
      ensures T() == Cleared(Cleared(old(T()), Stock, Rank(basecard)), Talon, Rank(basecard))
      ensures if ok then Settled() else unchanged(this)
    {
      hide BoardOk, Counters, Information, Account, Winnings, Rank, BasesGone;
      ghost var b := B();
      FndBase(Stock, ok);
      OnlyStock(b, B());
      b := B();
      FndBase(Talon, ok);
      OnlyTalon(b, B());
    }

    /**
     * Any run of commands, up to the end of the game or to a command that moves a column onto an
     * empty one: the commands are obeyed one after the other, and before that one the whole
     * state is in order.
     */
    method Play(cmds: seq<Command>) returns (n: nat)
      requires Settled() && forall i :: 0 <= i < |cmds| ==> cmds[i].Ok()
      modifies this
      ensures n <= |cmds| && T() == AfterTurns(old(T()), cmds[..n], Rank(basecard))
      ensures Settled() && basecard == old(basecard)
      ensures n < |cmds| ==> done || OntoEmpty(B(), cmds[n])
      ensures (counting ==> AllPaid()) && (!done ==> counting == (old(counting) != (Toggles(cmds[..n]) % 2 == 1)))
    {
      hide AfterTurn, Information, Account, BoardOk, Counters, Winnings;
      FourAndFour();
      SettledPaid();
      n := 0;
      assert cmds[..0] == [];
      while n < |cmds| && !done && !OntoEmpty(B(), cmds[n])
        invariant n <= |cmds| && Settled() && basecard == old(basecard) && B().Ok()
        invariant T() == AfterTurns(old(T()), cmds[..n], Rank(basecard))
        invariant counting ==> AllPaid()
        invariant !done ==> counting == (old(counting) != (Toggles(cmds[..n]) % 2 == 1))
      {
        Turn(cmds[n]);
        assert cmds[..n + 1][..n] == cmds[..n];
        n := n + 1;
      }
    }
  }

  datatype Command =
    | ToFoundation(p: Pile)
    | ToTableau(p: Pile, des: nat)
    | Columns(sour: nat, des: nat)
    | HandToTalon(buys: bool)
    | Counting
    | Quit
  {
    predicate Ok() {
      match this
      case ToFoundation(p) => p.Column? ==> p.i < 4
      case ToTableau(p, des) => !p.Column? && des < 4
      case Columns(sour, des) => sour < 4 && des < 4
      case _ => true
    }
  }

  lemma {:induction false} OnlyStock(was: Board, now: Board)
    requires Shortened(was, now, Stock)
    ensures now.talon == was.talon && now.tableau == was.tableau && now.hand == was.hand
  {
    assert now.Get(Talon) == was.Get(Talon);
    forall i | 0 <= i < 4
      ensures now.tableau[i] == was.tableau[i]
    {
      assert now.Get(Column(i)) == was.Get(Column(i));
    }
  }

  lemma {:induction false} OtherColumns(was: Board, now: Board, j: nat)
    requires Shortened(was, now, Column(j)) && |was.tableau[j]| <= 1
    ensures now.talon == was.talon && now.hand == was.hand && |now.tableau[j]| <= 1
    ensures forall i :: 0 <= i < 4 && i != j ==> now.tableau[i] == was.tableau[i]
  {
    assert now.Get(Talon) == was.Get(Talon);
    forall i | 0 <= i < 4 && i != j
      ensures now.tableau[i] == was.tableau[i]
    {
      assert now.Get(Column(i)) == was.Get(Column(i));
    }
  }

  lemma {:induction false} OnlyTalon(was: Board, now: Board)
    requires Shortened(was, now, Talon)
    ensures now.stock == was.stock && now.tableau == was.tableau && now.hand == was.hand
  {
    assert now.Get(Stock) == was.Get(Stock);
    forall i | 0 <= i < 4
      ensures now.tableau[i] == was.tableau[i]
    {
      assert now.Get(Column(i)) == was.Get(Column(i));
    }
  }
}
