/** What the reducer's moves keep: every card of the deck, and foundation
    stacks that hold one suit each, built up from the Ace in rank order.
    The lemmas are stated over the layout functions that specify the
    reducer's methods (module GameReducer). */
module GameInvariants {
  import opened Util
  import opened GameTypes
  import opened GameRules
  import opened GameReducer
  import CardUtil

  /** A layout of the thirteen slots whose foundation slots 2 to 5 are ordered. */
  ghost predicate LayoutOrdered(cs: seq<seq<Card>>) {
    |cs| == 13 && FoundationsOrdered(cs[2..6])
  }

  /** The cards are the top of the pile, in pile order, and occur nowhere below. */
  predicate FromTopOf(pile: seq<Card>, cards: seq<Card>) {
    && |cards| <= |pile|
    && pile[|pile| - |cards|..] == cards
    && forall i :: 0 <= i < |cards| ==> cards[i] !in pile[..|pile| - |cards|]
  }

  /** draw-stock only moves a card from the stock to the waste: the foundations
      and the tables are left as they were. */
  lemma DrawStockFrame(cs: seq<seq<Card>>, card: Card)
    requires |cs| == 13
    ensures DrawStockLayout(cs, card)[2..] == cs[2..]
  {
    if IsTopCard(cs[StockSlot], card) {
      MoveTopElsewhere(cs, StockSlot, WasteSlot);
    }
  }

  /** empty-stock only refills the stock from the waste: the foundations and
      the tables are left as they were, and so is the deck. */
  lemma EmptyStockFrame(cs: seq<seq<Card>>)
    requires |cs| == 13
    ensures EmptyStockLayout(cs)[2..] == cs[2..]
    ensures multiset(Flatten(EmptyStockLayout(cs))) == multiset(Flatten(cs))
  {
    EmptyStockConserves(cs);
    var r := EmptyStockLayout(cs);
    assert forall i :: 2 <= i < 13 ==> r[i] == cs[i];
  }

  /** A move between two slots neither of which is 2 or later leaves slots 2 onwards. */
  lemma MoveTopElsewhere(cs: seq<seq<Card>>, from: int, to: int)
    requires |cs| == 13 && 0 <= from < 2 && 0 <= to < 2 && from != to && |cs[from]| > 0
    ensures MoveTop(cs, from, to)[2..] == cs[2..]
  {
    var r := MoveTop(cs, from, to);
    MoveTopSlots(cs, from, to);
    assert forall i :: 2 <= i < 13 ==> r[i] == cs[i];
  }

  /** Moving the top card of a slot outside the foundations onto the stack
      of its suit, when that stack accepts it, keeps the foundations ordered. */
  lemma MoveOntoFoundation(cs: seq<seq<Card>>, from: int, card: Card)
    requires LayoutOrdered(cs) && 0 <= from < 13 && !(2 <= from < 6)
    requires IsTopCard(cs[from], card)
    requires StackMoveAllowed(cs[StackSlot(SuitToIndex(card.suit))], card)
    ensures LayoutOrdered(MoveTop(cs, from, StackSlot(SuitToIndex(card.suit))))
  {
    var si := SuitToIndex(card.suit);
    IsTopCardRule(cs[from], card);
    MoveTopFoundations(cs, from, si);
    FoundationPush(cs[2..6], card);
  }

  /** A move from outside the foundations onto stack si changes only that
      stack among the foundations, by the moved card. */
  lemma MoveTopFoundations(cs: seq<seq<Card>>, from: int, si: int)
    requires |cs| == 13 && 0 <= from < 13 && !(2 <= from < 6) && 0 <= si < 4 && |cs[from]| > 0
    ensures var top := cs[from][|cs[from]| - 1];
            MoveTop(cs, from, StackSlot(si))[2..6] == cs[2..6][si := cs[2..6][si] + [top]]
  {
    var top := cs[from][|cs[from]| - 1];
    var r := cs[from := cs[from][..|cs[from]| - 1]][StackSlot(si) := cs[StackSlot(si)] + [top]];
    assert MoveTop(cs, from, StackSlot(si)) == r;
    assert r[2..6] == cs[2..6][si := cs[2..6][si] + [top]];
  }

  /** draw-waste keeps the foundations ordered. */
  lemma DrawWasteKeepsFoundations(cs: seq<seq<Card>>, card: Card)
    requires LayoutOrdered(cs)
    ensures LayoutOrdered(DrawWasteLayout(cs, card))
  {
    if DrawWasteMoves(cs, card) {
      MoveOntoFoundation(cs, WasteSlot, card);
    }
  }

  /** A card on an ordered foundation stack lies on the stack of its own suit. */
  lemma OnItsOwnStack(cs: seq<seq<Card>>, k: int, card: Card)
    requires LayoutOrdered(cs) && 2 <= k < 6 && card in cs[k]
    ensures k == StackSlot(SuitToIndex(card.suit))
  {
    var j :| 0 <= j < |cs[k]| && cs[k][j] == card;
    assert cs[2..6][k - 2] == cs[k];
  }

  /** draw-table keeps the foundations ordered: a card on a foundation is on
      its own suit's stack, which refuses it, so only cards from elsewhere
      move, and they go onto the stack of their suit. */
  lemma DrawTableKeepsFoundations(cs: seq<seq<Card>>, card: Card, side: Side)
    requires LayoutOrdered(cs)
    ensures LayoutOrdered(DrawTableLayout(cs, card, side))
  {
    if DrawTableMoves(cs, card, side) {
      var k := CardUtil.HoldingIndex(cs, card);
      if 2 <= k < 6 {
        OnItsOwnStack(cs, k, card);
        StackRefusesOwnTop(cs[k], card);
        assert false;
      }
      MoveOntoFoundation(cs, k, card);
    }
  }

  /** Cutting a foundation stack back to one of its prefixes keeps the foundations ordered. */
  lemma FoundationTruncate(stacks: seq<seq<Card>>, k: int, n: int)
    requires FoundationsOrdered(stacks) && 0 <= k < |stacks| && 0 <= n <= |stacks[k]|
    ensures FoundationsOrdered(stacks[k := stacks[k][..n]])
  {
    var t: seq<seq<Card>> := stacks[k := stacks[k][..n]];
    forall m: int, j: int | 0 <= m < |t| && 0 <= j < |t[m]|
      ensures SuitToIndex(t[m][j].suit) == m && RankNumber(t[m][j].rank) == j
    {
      assert t[m][j] == stacks[m][j];
    }
  }

  /** When the carried cards are the top of their pile, drop-table leaves the
      cards below them in the origin pile. */
  lemma DropTableFromTop(cs: seq<seq<Card>>, cards: seq<Card>, t: int)
    requires 0 <= t < |cs| && DropTableMoves(cs, cards, t)
    requires FromTopOf(cs[CardUtil.HoldingIndex(cs, cards[0])], cards)
    ensures var k := CardUtil.HoldingIndex(cs, cards[0]);
            var p := cs[k][..|cs[k]| - |cards|];
            DropTableLayout(cs, cards, t) == cs[k := p][t := cs[t] + cards]
  {
    var k := CardUtil.HoldingIndex(cs, cards[0]);
    var p := cs[k][..|cs[k]| - |cards|];
    assert cs[k] == p + cards;
    RemoveEachSuffix(p, cards);
  }

  /** drop-table keeps the foundations ordered when it carries the top cards
      of their pile onto a table: a foundation they leave keeps a prefix. */
  lemma DropTableKeepsFoundations(cs: seq<seq<Card>>, cards: seq<Card>, t: int)
    requires LayoutOrdered(cs) && 6 <= t < 13
    requires DropTableMoves(cs, cards, t) ==> FromTopOf(cs[CardUtil.HoldingIndex(cs, cards[0])], cards)
    ensures LayoutOrdered(DropTableLayout(cs, cards, t))
  {
    if DropTableMoves(cs, cards, t) {
      var k := CardUtil.HoldingIndex(cs, cards[0]);
      var p := cs[k][..|cs[k]| - |cards|];
      DropTableFromTop(cs, cards, t);
      var r := cs[k := p][t := cs[t] + cards];
      var stacks := cs[2..6];
      if 2 <= k < 6 {
        FoundationTruncate(stacks, k - 2, |p|);
        assert r[2..6] == stacks[k - 2 := stacks[k - 2][..|p|]];
      } else {
        assert r[2..6] == stacks;
      }
    }
  }

  /** drop-table keeps every card of the deck when the origin pile holds all the carried cards. */
  lemma DropTableConserves(cs: seq<seq<Card>>, cards: seq<Card>, t: int)
    requires 0 <= t < |cs|
    requires DropTableMoves(cs, cards, t) ==> multiset(cards) <= multiset(cs[CardUtil.HoldingIndex(cs, cards[0])])
    ensures multiset(Flatten(DropTableLayout(cs, cards, t))) == multiset(Flatten(cs))
  {
    if DropTableMoves(cs, cards, t) {
      var k := CardUtil.HoldingIndex(cs, cards[0]);
      var rest := RemoveEach(cs[k], cards);
      RemoveEachMultiset(cs[k], cards);
      assert multiset(rest) + multiset(cs[t] + cards) == multiset(cs[k]) + multiset(cs[t]);
      MoveConserves(cs, k, t, rest, cs[t] + cards);
    }
  }

  /** Cards carried from the top of their pile are all in it. */
  lemma FromTopHeld(pile: seq<Card>, cards: seq<Card>)
    requires FromTopOf(pile, cards)
    ensures multiset(cards) <= multiset(pile)
  {
    var p := pile[..|pile| - |cards|];
    assert pile == p + cards;
  }
}
