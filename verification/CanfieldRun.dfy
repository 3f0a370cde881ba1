/**
 * A run of games/canfield.c that comes to moving a column onto an empty one: the stock goes to
 * the foundation card by card, then a column, and then another column can be moved there.
 */
module CanfieldRun {
  import opened Canfield

  /** From the ace of the first suit downwards to the ace of the second, and then on from there. */
  function Deck(): (deck: seq<Card>)
    ensures |deck| == 52
    ensures forall i :: 0 <= i < 52 ==> deck[i] == if i <= 13 then 13 - i else i
  {
    seq(52, i requires 0 <= i < 52 => if i <= 13 then 13 - i else i)
  }

  lemma {:induction false} OnlyThere(s: seq<Card>, c: Card, i: nat)
    requires i < |s| && s[i] == c && forall j :: 0 <= j < |s| && j != i ==> s[j] != c
    ensures Times(s, c) == 1
  {
    Nowhere(s[..i], c);
    Nowhere(s[i + 1..], c);
    assert s == s[..i] + ([s[i]] + s[i + 1..]);
    JoinTimes(s[..i], [s[i]] + s[i + 1..], c);
    JoinTimes([s[i]], s[i + 1..], c);
  }

  lemma {:induction false} Nowhere(s: seq<Card>, c: Card)
    requires c !in s
    ensures Times(s, c) == 0
  {
  }

  lemma {:induction false} DeckIsFull()
    ensures FullDeck(Deck())
  {
    forall c: Card ensures Times(Deck(), c) == 1 {
      OnlyThere(Deck(), c, if c <= 13 then 13 - c else c);
    }
  }

  // ----- the states of the run

  /** The cards from a on to, but not including, b. */
  function Cards(a: Card, b: nat): (s: seq<Card>)
    requires a <= b <= 52
    ensures |s| == b - a && forall i :: 0 <= i < |s| ==> s[i] == a + i
  {
    seq(b - a, i requires 0 <= i < b - a => a + i)
  }

  /** The first suit on the foundation, up to card k. */
  function Built(k: Card): (s: seq<Card>)
    ensures |s| == k + 1 && forall i :: 0 <= i < |s| ==> s[i] == k - i
  {
    seq(k + 1, i requires 0 <= i < k + 1 => k - i)
  }

  const COLUMNS: seq<seq<Card>> := [[14], [15], [16], [17]]
  const TALON: seq<Card> := [20, 19, 18]

  /** After k cards of the stock have gone. */
  function Climbed(k: nat): (t: Table)
    requires k <= 11
    ensures t.b.Ok()
  {
    Table(Board(Cards(21, 52), TALON, Cards(k + 1, 14), [Built(k), [], [], []], COLUMNS), 0, 0, false, false, false)
  }

  /** Nothing is done but the command, when no base card is left in view. */
  lemma {:induction false} QuietTurn(t: Table, cmd: Command, baseRank: nat)
    requires t.b.Ok() && cmd.Ok() && t.b.talon != [] && Count(t.b.found) < 52
    requires var b := Obeyed(t, cmd, baseRank).b;
      (b.stock == [] || Rank(b.stock[0]) != baseRank) && (b.talon == [] || Rank(b.talon[0]) != baseRank)
    ensures AfterTurn(t, cmd, baseRank) == Obeyed(t, cmd, baseRank)
  {
    hide Obeyed, Rank, Count, BasesGone;
    var u := Obeyed(t, cmd, baseRank);
    NoBaseOnTop(u.b, Stock, u.base, baseRank);
    NoBaseOnTop(u.b, Talon, u.base, baseRank);
  }

  lemma {:induction false} FewOff(k: nat)
    requires k <= 11
    ensures Count([Built(k), [], [], []]) == k + 1
  {
    FourPiles(Built(k), [], [], [], 0);
  }

  /** The top card of the stock goes on the first foundation pile. */
  lemma {:induction false} OneUp(k: nat)
    requires k <= 11
    ensures Obeyed(Climbed(k), ToFoundation(Stock), ACE) ==
      Climbed(k).(b := Climbed(k).b.(stock := Cards(k + 1, 14)[1..], found := [Built(k + 1), [], [], []]))
  {
    var b := Climbed(k).b;
    var c := b.stock[0];
    assert c == k + 1 && b.found[0][0] == k && Rank(c) == k + 2 && Suit(c) == 0 == Suit(b.found[0][0]);
    assert Fits(b, Stock, 0, 0, false, 1);
    assert FitFrom(b, Stock, 0) == 0;
    assert [c] + Built(k) == Built(k + 1);
    assert b.found[0 := Built(k + 1)] == [Built(k + 1), [], [], []];
  }

  lemma {:induction false} Climb(k: nat)
    requires k < 11
    ensures AfterTurn(Climbed(k), ToFoundation(Stock), ACE) == Climbed(k + 1)
  {
    OneUp(k);
    FewOff(k);
    assert Cards(k + 1, 14)[1..] == Cards(k + 2, 14);
    hide Obeyed, Count;
    QuietTurn(Climbed(k), ToFoundation(Stock), ACE);
  }

  /** The stock is gone: its last card is a base card. */
  const StockGone: Table :=
    Table(Board(Cards(21, 52), TALON, [], [Built(12), [13], [], []], COLUMNS), 1, 0, false, false, false)

  lemma {:induction false} LastOfStock()
    ensures AfterTurn(Climbed(11), ToFoundation(Stock), ACE) == StockGone
  {
    OneUp(11);
    FewOff(11);
    var t := Obeyed(Climbed(11), ToFoundation(Stock), ACE);
    assert t.b.stock == [13];
    assert Rank(13) == ACE && Rank(20) != ACE;
    assert [13] + [] == [13];
    assert t.b.found[1 := [13]] == [Built(12), [13], [], []];
    var u := ToFound(t.b, Stock, 1);
    assert u == StockGone.b;
    hide Obeyed, Count;
    NoBaseOnTop(u, Stock, 1, ACE);
    NoBaseOnTop(u, Talon, 1, ACE);
  }

  /** Then the first column is empty. */
  lemma {:induction false} ColumnGone()
    ensures var t := AfterTurn(StockGone, ToFoundation(Column(0)), ACE);
      !t.done && OntoEmpty(t.b, Columns(1, 0)) && Count(t.b.found) < 52
  {
    var b := StockGone.b;
    FourPiles(Built(12), [13], [], [], 0);
    FourPiles(Built(12), [14, 13], [], [], 0);
    assert Rank(14) == 2 && Suit(14) == 1 == Suit(13) && Rank(13) == 1 && Rank(12) == 13;
    assert !Fits(b, Column(0), 0, 0, false, 1) && Fits(b, Column(0), 1, 0, false, 1);
    assert FitFrom(b, Column(0), 1) == 1;
    assert FitFrom(b, Column(0), 0) == 1;
    assert [14] + [13] == [14, 13];
    assert b.found[1 := [14, 13]] == [Built(12), [14, 13], [], []];
    var t := Obeyed(StockGone, ToFoundation(Column(0)), ACE);
    assert t.b.found == [Built(12), [14, 13], [], []] && t.b.talon == TALON && t.b.stock == [];
    assert t.b.tableau[0] == [] && t.b.tableau[1] == [15];
    hide Obeyed, Count;
    QuietTurn(StockGone, ToFoundation(Column(0)), ACE);
  }

  // ----- the run

  function StockCommands(n: nat): (cmds: seq<Command>)
    ensures |cmds| == n && forall i :: 0 <= i < n ==> cmds[i] == ToFoundation(Stock)
  {
    seq(n, _ => ToFoundation(Stock))
  }

  lemma {:induction false} ClimbAll(k: nat)
    requires k <= 11
    ensures AfterTurns(Climbed(0), StockCommands(k), ACE) == Climbed(k)
  {
    if k > 0 {
      ClimbAll(k - 1);
      Climb(k - 1);
      assert StockCommands(k)[..k - 1] == StockCommands(k - 1);
    }
  }

  lemma {:induction false} BoardOfDeck()
    ensures StartBoard(Deck()) ==
      Board(Cards(18, 52), [], Cards(1, 14), [Built(0), [], [], []], COLUMNS)
  {
    var d := Deck();
    StockFromDeck(d[..13], 13);
    assert d[18..] == Cards(18, 52);
    assert [d[13]] == Built(0);
  }

  /** The first three cards of the hand. */
  lemma {:induction false} FirstDeal(t: Table)
    requires t.b.Ok() && t.b.hand == Cards(18, 52) && t.b.talon == []
    ensures Dealt(t, ACE) == t.(b := t.b.(hand := Cards(21, 52), talon := TALON))
  {
    var h := t.b.hand;
    assert h[3..] == Cards(21, 52) && h[..3] == [18, 19, 20];
    ThreeReversed();
    assert TALON + [] == TALON;
    assert Rank(20) != ACE;
    hide Reversed, Rank;
    NoBaseOnTop(t.b.(hand := h[3..], talon := TALON), Talon, t.base, ACE);
  }

  lemma {:induction false} DealtToStart()
    ensures Rank(Deck()[13]) == ACE && Started(StartTable(Deck(), false), ACE) == Climbed(0)
  {
    BoardOfDeck();
    var t := StartTable(Deck(), false);
    assert Rank(1) != ACE;
    hide Dealt, StartBoard;
    NothingToClear(t, 4);
    NoBaseOnTop(t.b, Stock, 0, ACE);
    FirstDeal(t);
  }

  lemma ThreeReversed()
    ensures Reversed([18, 19, 20]) == TALON
  {
    var s: seq<Card> := [18, 19, 20];
    assert s[1..] == [19, 20] && s[1..][1..] == [20];
  }

  /** The stock comes out of the deck the other way round. */
  lemma {:induction false} StockFromDeck(s: seq<Card>, n: nat)
    requires |s| == n <= 13 && forall i :: 0 <= i < n ==> s[i] == n - i
    ensures Reversed(s) == Cards(1, n + 1)
  {
    if n > 0 {
      StockFromDeck(s[1..], n - 1);
      assert Reversed(s) == Reversed(s[1..]) + [s[0]];
      assert Cards(1, n) + [n] == Cards(1, n + 1);
    }
  }

  lemma {:induction false} NothingToClear(t: Table, n: nat)
    requires t.b.Ok() && n <= 4 && t.b.tableau == COLUMNS
    ensures ColumnsCleared(t, n, ACE) == t
  {
    if n > 0 {
      NothingToClear(t, n - 1);
      NoBaseOnTop(t.b, Column(n - 1), t.base, ACE);
    }
  }

  /**
   * From this deck, after the stock and the first column have gone to the foundation, the second
   * column can be moved onto the empty first one.
   */
  lemma {:induction false} ComesOntoEmpty()
    ensures FullDeck(Deck())
    ensures var t :=
      AfterTurns(Started(StartTable(Deck(), false), ACE), StockCommands(12) + [ToFoundation(Column(0))], ACE);
      Rank(Deck()[13]) == ACE && !t.done && OntoEmpty(t.b, Columns(1, 0))
  {
    hide AfterTurn, Started, Climbed, FullDeck, OntoEmpty, Rank;
    DeckIsFull();
    DealtToStart();
    ClimbAll(11);
    LastOfStock();
    ColumnGone();
    var twelve := StockCommands(12);
    assert twelve[..11] == StockCommands(11) && twelve[11] == ToFoundation(Stock);
    var all := twelve + [ToFoundation(Column(0))];
    assert all[..12] == twelve;
    assert AfterTurns(Climbed(0), twelve, ACE) == StockGone;
  }
}
