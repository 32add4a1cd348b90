/** The reducer of src/game/Game.tsx (`gameReducer` and `checkForWin`).

    Every action returns a new state object, the shallow copy `{ ...state }`,
    over the same pile and statistics objects; the piles' card sequences, the
    cards' sides and the statistics are updated in place.

    A layout is the cards of the thirteen piles of a state in search order
    (`Contents(s.Piles())`): slot 0 the stock, slot 1 the waste, slots 2 to 5
    the foundation stacks and slots 6 to 12 the tables. The methods are
    specified by what they do to the layout, and the layout functions carry
    the game's invariants. */
module GameReducer {
  import opened Wrappers
  import opened Util
  import opened GameTypes
  import opened GameRules
  import CardUtil

  const StockSlot := 0
  const WasteSlot := 1

  /** The slot of foundation stack k. */
  function StackSlot(k: int): int {
    2 + k
  }

  /** The status checkForWin leaves: "won" when the layout is won, the status unchanged otherwise. */
  function WinStatus(cs: seq<seq<Card>>, status: Status): Status
    requires |cs| == 13
  {
    if WinOf(cs[0], cs[1], cs[2..6], cs[6..]) then Won else status
  }

  /** Moving the top card of slot `from` onto slot `to`. */
  function MoveTop(cs: seq<seq<Card>>, from: int, to: int): (r: seq<seq<Card>>)
    requires 0 <= from < |cs| && 0 <= to < |cs| && from != to && |cs[from]| > 0
    ensures |r| == |cs|
    ensures multiset(Flatten(r)) == multiset(Flatten(cs))
  {
    var top := cs[from][|cs[from]| - 1];
    assert cs[from] == cs[from][..|cs[from]| - 1] + [top];
    MoveConserves(cs, from, to, cs[from][..|cs[from]| - 1], cs[to] + [top]);
    cs[from := cs[from][..|cs[from]| - 1]][to := cs[to] + [top]]
  }

  /** Only the two slots of a move change: the top card leaves one and lands on the other. */
  lemma MoveTopSlots(cs: seq<seq<Card>>, from: int, to: int)
    requires 0 <= from < |cs| && 0 <= to < |cs| && from != to && |cs[from]| > 0
    ensures var r := MoveTop(cs, from, to);
            && r[from] + [cs[from][|cs[from]| - 1]] == cs[from]
            && r[to] == cs[to] + [cs[from][|cs[from]| - 1]]
            && forall i :: 0 <= i < |cs| && i != from && i != to ==> r[i] == cs[i]
  {
  }

  /** The layout of a valid state names each stack and table in its slot. */
  lemma LayoutSlots(s: SolitaireState)
    requires s.Valid()
    ensures var cs := Contents(s.Piles());
            && |cs| == 13 && cs[0] == s.stock.cards && cs[1] == s.waste.cards
            && (forall k :: 0 <= k < 4 ==> cs[StackSlot(k)] == s.stacks[k].cards)
            && (forall k :: 0 <= k < 7 ==> cs[6 + k] == s.tables[k].cards)
            && cs[2..6] == Contents(s.stacks) && cs[6..] == Contents(s.tables)
  {
    var cs := Contents(s.Piles());
    assert cs[2..6] == Contents(s.stacks);
    assert cs[6..] == Contents(s.tables);
  }

  /** The loop of checkForWin: how many stacks hold exactly size cards. */
  method CountCompleteStacks(stacks: seq<Pile>, size: int) returns (n: nat)
    ensures n == CountComplete(Contents(stacks), size)
  {
    n := 0;
    for i := 0 to |stacks|
      invariant n == CountComplete(Contents(stacks)[..i], size)
    {
      assert Contents(stacks)[..i + 1][..i] == Contents(stacks)[..i];
      if |stacks[i].cards| == size {
        n := n + 1;
      }
    }
    assert Contents(stacks)[..|stacks|] == Contents(stacks);
  }

  /** The test of checkForWin: the number of cards, and whether all four
      stacks hold a quarter of them. */
  method AllStacksComplete(s: SolitaireState) returns (won: bool)
    requires s.Valid()
    ensures var cs := Contents(s.Piles()); won == WinOf(cs[0], cs[1], cs[2..6], cs[6..])
  {
    ghost var cs := Contents(s.Piles());
    LayoutSlots(s);
    var deckSize := |s.stock.cards| + |s.waste.cards| + SumLengths(Contents(s.tables)) + SumLengths(Contents(s.stacks));
    assert deckSize == DeckSize(cs[0], cs[1], cs[2..6], cs[6..]);
    var completeStacks := CountCompleteStacks(s.stacks, deckSize / 4);
    won := completeStacks == 4;
  }

  /** The status half of checkForWin: "won" when all four stacks hold a
      quarter of the cards, the status unchanged otherwise. */
  method MarkWon(s: SolitaireState)
    requires s.Valid()
    modifies s`status
    ensures s.status == WinStatus(old(Contents(s.Piles())), old(s.status))
    ensures Contents(s.Piles()) == old(Contents(s.Piles()))
  {
    ghost var cs := Contents(s.Piles());
    var won := AllStacksComplete(s);
    assert won == WinOf(cs[0], cs[1], cs[2..6], cs[6..]);
    SetWon(s, won);
    assert Contents(s.Piles()) == cs;
  }

  /** `s.status = "won"` when the test holds. */
  method SetWon(s: SolitaireState, won: bool)
    modifies s`status
    ensures s.status == if won then Won else old(s.status)
  {
    if won {
      s.status := Won;
    }
  }

  /** checkForWin: the status becomes "won" when all four stacks hold a
      quarter of the cards, and the move counter goes up when the move counts. */
  method CheckForWin(s: SolitaireState, countMove: bool)
    requires s.Valid()
    modifies s`status, s.stats`moves
    ensures s.status == WinStatus(old(Contents(s.Piles())), old(s.status))
    ensures s.stats.moves == old(s.stats.moves) + (if countMove then 1 else 0)
    ensures Contents(s.Piles()) == old(Contents(s.Piles()))
  {
    ghost var cs := Contents(s.Piles());
    MarkWon(s);
    assert Contents(s.Piles()) == cs;
    CountMove(s.stats, countMove);
    assert Contents(s.Piles()) == cs;
  }

  /** The counter half of checkForWin. */
  method CountMove(stats: Stats, countMove: bool)
    modifies stats`moves
    ensures stats.moves == old(stats.moves) + (if countMove then 1 else 0)
  {
    if countMove {
      stats.moves := stats.moves + 1;
    }
  }

  /** Replacing the cards of the pile in one slot changes that slot of the
      layout and no other (the piles of a state are distinct objects). */
  method SetCards(ps: seq<Pile>, i: int, cards: seq<Card>)
    requires 0 <= i < |ps|
    requires forall a, b :: 0 <= a < b < |ps| ==> ps[a] != ps[b]
    modifies ps[i]
    ensures Contents(ps) == old(Contents(ps))[i := cards]
  {
    ghost var cs := Contents(ps);
    ps[i].cards := cards;
    forall j | 0 <= j < |ps| && j != i
      ensures ps[j].cards == cs[j]
    {
      assert ps[j] != ps[i];
    }
  }

  /** The draw-stock layout: the card moves from the stock to the waste when
      it is the stock's top card; otherwise nothing changes. */
  function DrawStockLayout(cs: seq<seq<Card>>, card: Card): (r: seq<seq<Card>>)
    requires |cs| == 13
    ensures |r| == 13
    ensures multiset(Flatten(r)) == multiset(Flatten(cs))
  {
    if IsTopCard(cs[StockSlot], card) then MoveTop(cs, StockSlot, WasteSlot) else cs
  }

  /** The pile work of draw-stock. */
  method MoveStockTop(s: SolitaireState, card: Card) returns (moved: bool)
    requires s.Valid()
    modifies s.stock, s.waste, card
    ensures moved == IsTopCard(old(s.stock.cards), card)
    ensures Contents(s.Piles()) == DrawStockLayout(old(Contents(s.Piles())), card)
    ensures card.side == if moved then Front else old(card.side)
  {
    var ps := s.Piles();
    ghost var cs := Contents(ps);
    s.PilesDistinct();
    var stock, waste := s.stock.cards, s.waste.cards;
    assert stock == cs[StockSlot] && waste == cs[WasteSlot];
    var stockIndex := IndexOf(stock, card);
    moved := false;
    if stockIndex != -1 && stockIndex == |stock| - 1 {
      assert stock[..stockIndex] + stock[stockIndex + 1..] == stock[..stockIndex];
      SetCards(ps, StockSlot, stock[..stockIndex] + stock[stockIndex + 1..]);
      card.side := Front;
      SetCards(ps, WasteSlot, waste + [card]);
      moved := true;
      assert Contents(ps) == cs[StockSlot := stock[..stockIndex]][WasteSlot := waste + [card]];
    }
  }

  /** draw-stock on the copied state: the top card of the stock turns face up
      onto the waste, and the move counts when it happened. */
  method ReduceDrawStock(s: SolitaireState, card: Card)
    requires s.Valid()
    modifies s.stock, s.waste, s`status, s.stats`moves, card
    ensures Contents(s.Piles()) == DrawStockLayout(old(Contents(s.Piles())), card)
    ensures card.side == if IsTopCard(old(s.stock.cards), card) then Front else old(card.side)
    ensures s.status == WinStatus(Contents(s.Piles()), old(s.status))
    ensures s.stats.moves == old(s.stats.moves) + if IsTopCard(old(s.stock.cards), card) then 1 else 0
  {
    ghost var cs0, status, moves := Contents(s.Piles()), s.status, s.stats.moves;
    ghost var top := IsTopCard(s.stock.cards, card);
    var moveAllowed := MoveStockTop(s, card);
    ghost var cs := Contents(s.Piles());
    ghost var side := card.side;
    assert moveAllowed == top && cs == DrawStockLayout(cs0, card);
    assert s.status == status && s.stats.moves == moves;
    CheckForWin(s, moveAllowed);
    assert Contents(s.Piles()) == cs && card.side == side;
  }

  /** The empty-stock layout: with the stock empty, the waste turns over
      into the stock in reverse order and the waste is emptied. */
  function EmptyStockLayout(cs: seq<seq<Card>>): (r: seq<seq<Card>>)
    requires |cs| == 13
    ensures |r| == 13
  {
    if |cs[StockSlot]| == 0 then cs[StockSlot := Reversed(cs[WasteSlot])][WasteSlot := []] else cs
  }

  /** Turning the waste over keeps every card of the game. */
  lemma EmptyStockConserves(cs: seq<seq<Card>>)
    requires |cs| == 13
    ensures multiset(Flatten(EmptyStockLayout(cs))) == multiset(Flatten(cs))
  {
    if |cs[StockSlot]| == 0 {
      ReversedMultiset(cs[WasteSlot]);
      MoveConserves(cs, StockSlot, WasteSlot, Reversed(cs[WasteSlot]), []);
    }
  }

  /** Every card of the sequence lies face down. */
  predicate FaceDown(cards: seq<Card>)
    reads cards
  {
    forall c :: c in cards ==> c.side == Back
  }

  /** The forEach of empty-stock: every card of the sequence lies face down. */
  method TurnToBack(cards: seq<Card>)
    modifies cards
    ensures FaceDown(cards)
  {
    for i := 0 to |cards|
      invariant forall j :: 0 <= j < i ==> cards[j].side == Back
    {
      cards[i].side := Back;
    }
  }

  /** `stats.points += delta`. */
  method AddPoints(stats: Stats, delta: int)
    modifies stats`points
    ensures stats.points == old(stats.points) + delta
  {
    stats.points := stats.points + delta;
  }

  /** The branch of empty-stock: with the stock empty, the waste turns over
      into it face down, for 15 points. */
  method TurnWasteOver(s: SolitaireState) returns (emptied: bool)
    requires s.Valid()
    modifies s.stock, s.waste, s.waste.cards, s.stats`points
    ensures emptied == (|old(s.stock.cards)| == 0)
    ensures Contents(s.Piles()) == EmptyStockLayout(old(Contents(s.Piles())))
    ensures if emptied then FaceDown(old(s.waste.cards)) else unchanged(old(s.waste.cards))
    ensures s.stats.points == old(s.stats.points) - if emptied then 15 else 0
  {
    emptied := false;
    if |s.stock.cards| == 0 {
      RefillStock(s);
      AddPoints(s.stats, -15);
      emptied := true;
    }
  }

  /** The piles of that branch: the stock receives the reversed waste, whose
      cards are turned face down, and the waste is emptied. */
  method RefillStock(s: SolitaireState)
    requires s.Valid() && |s.stock.cards| == 0
    modifies s.stock, s.waste, s.waste.cards
    ensures Contents(s.Piles()) == EmptyStockLayout(old(Contents(s.Piles())))
    ensures FaceDown(old(s.waste.cards))
  {
    var ps := s.Piles();
    ghost var cs := Contents(ps);
    s.PilesDistinct();
    var waste := s.waste.cards;
    assert waste == cs[WasteSlot] && s.stock.cards == cs[StockSlot];
    SetCards(ps, StockSlot, Reversed(waste));
    ghost var cs1 := Contents(ps);
    assert cs1 == cs[StockSlot := Reversed(waste)];
    // the reversed stock holds the cards of the old waste
    TurnToBack(waste);
    assert Contents(ps) == cs1;
    SetCards(ps, WasteSlot, []);
    assert Contents(ps) == cs1[WasteSlot := []] && FaceDown(waste);
  }

  /** empty-stock on the copied state: the move counts whether or not the
      stock was empty. */
  method ReduceEmptyStock(s: SolitaireState)
    requires s.Valid()
    modifies s.stock, s.waste, s.waste.cards, s`status, s.stats`moves, s.stats`points
    ensures Contents(s.Piles()) == EmptyStockLayout(old(Contents(s.Piles())))
    ensures if |old(s.stock.cards)| == 0 then FaceDown(old(s.waste.cards)) else unchanged(old(s.waste.cards))
    ensures s.status == WinStatus(Contents(s.Piles()), old(s.status))
    ensures s.stats.moves == old(s.stats.moves) + 1
    ensures s.stats.points == old(s.stats.points) - if |old(s.stock.cards)| == 0 then 15 else 0
  {
    ghost var cs0, status, moves, points := Contents(s.Piles()), s.status, s.stats.moves, s.stats.points;
    ghost var empty, waste := |s.stock.cards| == 0, s.waste.cards;
    var emptied := TurnWasteOver(s);
    ghost var cs := Contents(s.Piles());
    ghost var down := FaceDown(waste);
    assert emptied == empty && cs == EmptyStockLayout(cs0);
    assert s.status == status && s.stats.moves == moves;
    assert s.stats.points == points - if emptied then 15 else 0;
    CheckForWin(s, true);
    assert Contents(s.Piles()) == cs && s.stats.points == points - if emptied then 15 else 0;
    assert FaceDown(waste) == down;
  }

  /** draw-waste moves the card when it is the waste's top card and its
      suit's foundation stack accepts it. */
  predicate DrawWasteMoves(cs: seq<seq<Card>>, card: Card)
    requires |cs| == 13
  {
    IsTopCard(cs[WasteSlot], card) && StackMoveAllowed(cs[StackSlot(SuitToIndex(card.suit))], card)
  }

  /** The draw-waste layout: the waste's top card onto its foundation stack. */
  function DrawWasteLayout(cs: seq<seq<Card>>, card: Card): (r: seq<seq<Card>>)
    requires |cs| == 13
    ensures |r| == 13
    ensures multiset(Flatten(r)) == multiset(Flatten(cs))
  {
    if DrawWasteMoves(cs, card) then MoveTop(cs, WasteSlot, StackSlot(SuitToIndex(card.suit))) else cs
  }

  /** The foundation move shared by draw-waste and draw-table: the top card
      of slot k goes onto its suit's stack when that stack accepts it. */
  method MoveOntoStack(s: SolitaireState, k: int, card: Card) returns (moved: bool)
    requires s.Valid() && 0 <= k < 13 && IsTopCard(Contents(s.Piles())[k], card)
    modifies s.Piles()
    ensures moved == StackMoveAllowed(old(Contents(s.Piles()))[StackSlot(SuitToIndex(card.suit))], card)
    ensures moved ==> k != StackSlot(SuitToIndex(card.suit))
    ensures Contents(s.Piles()) == if moved then MoveTop(old(Contents(s.Piles())), k, StackSlot(SuitToIndex(card.suit)))
                                   else old(Contents(s.Piles()))
  {
    var ps := s.Piles();
    ghost var cs := Contents(ps);
    s.PilesDistinct();
    var cards := ps[k].cards;
    var destinationStackIndex := SuitToIndex(card.suit);
    var destinationStack := s.stacks[destinationStackIndex];
    var stack := destinationStack.cards;
    assert ps[StackSlot(destinationStackIndex)] == destinationStack;
    moved := StackMoveAllowed(stack, card);
    if moved {
      StackRefusesOwnTop(cs[k], card);
      TakeTop(cards, card);
      SetCards(ps, k, cards[..|cards| - 1] + cards[|cards|..]);
      SetCards(ps, StackSlot(destinationStackIndex), stack + [card]);
    }
  }

  /** A stack never accepts its own top card, so no move puts a card back onto the stack it is on. */
  lemma StackRefusesOwnTop(stack: seq<Card>, card: Card)
    requires IsTopCard(stack, card)
    ensures !StackMoveAllowed(stack, card)
  {
  }

  /** The branch of draw-waste: the top card of the waste goes onto its
      suit's stack when the stack accepts it, for 10 points. */
  method MoveWasteTop(s: SolitaireState, card: Card) returns (moved: bool)
    requires s.Valid()
    modifies s.Piles(), s.stats`points
    ensures moved == DrawWasteMoves(old(Contents(s.Piles())), card)
    ensures Contents(s.Piles()) == DrawWasteLayout(old(Contents(s.Piles())), card)
    ensures s.stats.points == old(s.stats.points) + if moved then 10 else 0
  {
    ghost var cs, points := Contents(s.Piles()), s.stats.points;
    var waste := s.waste.cards;
    assert waste == cs[WasteSlot];
    var wasteIndex := IndexOf(waste, card);
    moved := false;
    if wasteIndex != -1 && wasteIndex == |waste| - 1 {
      moved := MoveOntoStack(s, WasteSlot, card);
      assert s.stats.points == points;
      if moved {
        AddPoints(s.stats, 10);
      }
    }
  }

  /** draw-waste on the copied state: the move counts when the card moved. */
  method ReduceDrawWaste(s: SolitaireState, card: Card)
    requires s.Valid()
    modifies s.Piles(), s`status, s.stats`moves, s.stats`points
    ensures Contents(s.Piles()) == DrawWasteLayout(old(Contents(s.Piles())), card)
    ensures s.status == WinStatus(Contents(s.Piles()), old(s.status))
    ensures s.stats.moves == old(s.stats.moves) + if DrawWasteMoves(old(Contents(s.Piles())), card) then 1 else 0
    ensures s.stats.points == old(s.stats.points) + if DrawWasteMoves(old(Contents(s.Piles())), card) then 10 else 0
  {
    ghost var cs0, status, moves, points := Contents(s.Piles()), s.status, s.stats.moves, s.stats.points;
    var moveAllowed := MoveWasteTop(s, card);
    ghost var cs := Contents(s.Piles());
    assert moveAllowed == DrawWasteMoves(cs0, card) && cs == DrawWasteLayout(cs0, card);
    assert s.status == status && s.stats.moves == moves;
    assert s.stats.points == points + if moveAllowed then 10 else 0;
    CheckForWin(s, moveAllowed);
    assert Contents(s.Piles()) == cs && s.stats.points == points + if moveAllowed then 10 else 0;
  }

  /** The slot draw-table finds the card in (findPileForCard), when the card is its top card. */
  predicate HeldOnTop(cs: seq<seq<Card>>, card: Card) {
    var k := CardUtil.HoldingIndex(cs, card);
    k != -1 && IsTopCard(cs[k], card)
  }

  /** draw-table on the back of a face-down top card turns it over. */
  predicate DrawTableTurns(cs: seq<seq<Card>>, card: Card, side: Side, cardSide: Side) {
    HeldOnTop(cs, card) && side == Back && cardSide == Back
  }

  /** draw-table on the front of a top card moves it onto its suit's stack when the stack accepts it. */
  predicate DrawTableMoves(cs: seq<seq<Card>>, card: Card, side: Side)
    requires |cs| == 13
  {
    HeldOnTop(cs, card) && side == Front && StackMoveAllowed(cs[StackSlot(SuitToIndex(card.suit))], card)
  }

  /** The draw-table layout. */
  function DrawTableLayout(cs: seq<seq<Card>>, card: Card, side: Side): (r: seq<seq<Card>>)
    requires |cs| == 13
    ensures |r| == 13
    ensures multiset(Flatten(r)) == multiset(Flatten(cs))
  {
    if DrawTableMoves(cs, card, side) then
      var k := CardUtil.HoldingIndex(cs, card);
      StackRefusesOwnTop(cs[k], card);
      MoveTop(cs, k, StackSlot(SuitToIndex(card.suit)))
    else
      cs
  }

  /** findPileForCard, as the slot of the pile it returns: the first slot
      holding the card, or -1 when the card is missing or no pile holds it. */
  method FindHoldingSlot(s: SolitaireState, card: Card?) returns (k: int)
    requires s.Valid()
    ensures k == if card == null then -1 else CardUtil.HoldingIndex(Contents(s.Piles()), card)
  {
    var ps := s.Piles();
    var pile := CardUtil.FindPileForCard(s, card);
    k := -1;
    if pile.Some? {
      ghost var h := CardUtil.HoldingIndex(Contents(ps), card);
      assert pile.value == ps[h];
      s.PilesDistinct();
      IndexOfAt(ps, ps[h], h);
      k := IndexOf(ps, pile.value);
    }
  }

  /** findPileForCard and the top-card test of draw-table: the slot of the
      pile holding the card when the card is that pile's top card, -1 otherwise. */
  method FindTopSlot(s: SolitaireState, card: Card) returns (k: int)
    requires s.Valid()
    ensures k == if HeldOnTop(Contents(s.Piles()), card) then CardUtil.HoldingIndex(Contents(s.Piles()), card) else -1
  {
    var ps := s.Piles();
    k := FindHoldingSlot(s, card);
    if k != -1 {
      var cards := ps[k].cards;
      var tableIndex := IndexOf(cards, card);
      if !(tableIndex != -1 && tableIndex == |cards| - 1) {
        k := -1;
      }
    }
  }

  /** The branches of draw-table: turn the card over for 10 points, or move it onto its stack. */
  method TakeFromPile(s: SolitaireState, card: Card, side: Side) returns (moved: bool)
    requires s.Valid()
    modifies s.Piles(), card, s.stats`points
    ensures moved == (DrawTableTurns(old(Contents(s.Piles())), card, side, old(card.side))
                      || DrawTableMoves(old(Contents(s.Piles())), card, side))
    ensures Contents(s.Piles()) == DrawTableLayout(old(Contents(s.Piles())), card, side)
    ensures card.side == if DrawTableTurns(old(Contents(s.Piles())), card, side, old(card.side)) then Front else old(card.side)
    ensures s.stats.points == old(s.stats.points)
              + if DrawTableTurns(old(Contents(s.Piles())), card, side, old(card.side)) then 10 else 0
  {
    ghost var cs, points := Contents(s.Piles()), s.stats.points;
    var k := FindTopSlot(s, card);
    assert k != -1 <==> HeldOnTop(cs, card);
    moved := false;
    if k != -1 {
      if side == Back && card.side == Back {
        TurnUp(card, s.stats);
        assert Contents(s.Piles()) == cs;
        moved := true;
      } else if side == Front {
        moved := MoveOntoStack(s, k, card);
        assert s.stats.points == points;
      }
    }
  }

  /** The card turned face up, for 10 points. */
  method TurnUp(card: Card, stats: Stats)
    modifies card, stats`points
    ensures card.side == Front && stats.points == old(stats.points) + 10
  {
    card.side := Front;
    stats.points := stats.points + 10;
  }

  /** draw-table on the copied state: the move counts when the card turned or moved. */
  method ReduceDrawTable(s: SolitaireState, card: Card, side: Side)
    requires s.Valid()
    modifies s.Piles(), card, s`status, s.stats`moves, s.stats`points
    ensures Contents(s.Piles()) == DrawTableLayout(old(Contents(s.Piles())), card, side)
    ensures s.status == WinStatus(Contents(s.Piles()), old(s.status))
    ensures card.side == if DrawTableTurns(old(Contents(s.Piles())), card, side, old(card.side)) then Front else old(card.side)
    ensures s.stats.moves == old(s.stats.moves)
              + if DrawTableTurns(old(Contents(s.Piles())), card, side, old(card.side))
                   || DrawTableMoves(old(Contents(s.Piles())), card, side) then 1 else 0
    ensures s.stats.points == old(s.stats.points)
              + if DrawTableTurns(old(Contents(s.Piles())), card, side, old(card.side)) then 10 else 0
  {
    ghost var cs0, status, moves, points, side0 := Contents(s.Piles()), s.status, s.stats.moves, s.stats.points, card.side;
    ghost var turns := DrawTableTurns(cs0, card, side, side0);
    var moveAllowed := TakeFromPile(s, card, side);
    ghost var cs, side1 := Contents(s.Piles()), card.side;
    assert moveAllowed == (turns || DrawTableMoves(cs0, card, side)) && cs == DrawTableLayout(cs0, card, side);
    assert s.status == status && s.stats.moves == moves;
    assert s.stats.points == points + if turns then 10 else 0;
    CheckForWin(s, moveAllowed);
    assert Contents(s.Piles()) == cs && card.side == side1;
    assert s.stats.points == points + if turns then 10 else 0;
  }

  /** drop-table moves the cards when there are some, a pile holds the first
      of them, that pile is not the target table, and the table accepts the
      first card. */
  predicate DropTableMoves(cs: seq<seq<Card>>, cards: seq<Card>, t: int)
    requires 0 <= t < |cs|
  {
    && |cards| > 0
    && var k := CardUtil.HoldingIndex(cs, cards[0]);
    && k != -1 && k != t && TableMoveAllowed(cs[t], cards[0])
  }

  /** The drop-table layout: each carried card, in order, is removed from the
      origin pile and pushed onto the table. */
  function DropTableLayout(cs: seq<seq<Card>>, cards: seq<Card>, t: int): (r: seq<seq<Card>>)
    requires 0 <= t < |cs|
    ensures |r| == |cs|
  {
    if DropTableMoves(cs, cards, t) then
      var k := CardUtil.HoldingIndex(cs, cards[0]);
      cs[k := RemoveEach(cs[k], cards)][t := cs[t] + cards]
    else
      cs
  }

  /** The points drop-table takes: 5 per card carried off a foundation stack. */
  function DropTablePenalty(cs: seq<seq<Card>>, cards: seq<Card>, t: int): int
    requires 0 <= t < |cs|
  {
    if DropTableMoves(cs, cards, t) && 2 <= CardUtil.HoldingIndex(cs, cards[0]) < 6 then 5 * |cards| else 0
  }

  /** The layout after the first i carried cards of drop-table's loop. */
  function DropPrefix(cs: seq<seq<Card>>, k: int, t: int, cards: seq<Card>, i: int): seq<seq<Card>>
    requires 0 <= k < |cs| && 0 <= t < |cs| && 0 <= i <= |cards|
  {
    cs[k := RemoveEach(cs[k], cards[..i])][t := cs[t] + cards[..i]]
  }

  /** One more pass of the loop removes the next card from the origin and pushes it onto the table. */
  lemma DropStep(cs: seq<seq<Card>>, k: int, t: int, cards: seq<Card>, i: int)
    requires 0 <= k < |cs| && 0 <= t < |cs| && k != t && 0 <= i < |cards|
    ensures var d := DropPrefix(cs, k, t, cards, i);
            DropPrefix(cs, k, t, cards, i + 1) == d[k := RemoveElement(d[k], cards[i])][t := d[t] + [cards[i]]]
  {
    var removed, pushed := RemoveEach(cs[k], cards[..i]), cs[t] + cards[..i];
    var next := cards[..i + 1];
    assert next == cards[..i] + [cards[i]];
    RemoveEachSnoc(cs[k], cards[..i], cards[i]);
    assert RemoveEach(cs[k], next) == RemoveElement(removed, cards[i]);
    assert cs[t] + next == pushed + [cards[i]];
    UpdateTwice(cs, k, t, removed, pushed, RemoveElement(removed, cards[i]), pushed + [cards[i]]);
  }

  /** Updating two slots again overrides the first updates. */
  lemma UpdateTwice<T>(xs: seq<T>, k: int, t: int, a: T, b: T, a2: T, b2: T)
    requires 0 <= k < |xs| && 0 <= t < |xs| && k != t
    ensures var d := xs[k := a][t := b];
            d[k] == a && d[t] == b && d[k := a2][t := b2] == xs[k := a2][t := b2]
  {
  }

  /** One pass of drop-table's loop: removeElement on the origin, push onto the table. */
  method MoveOneCard(ps: seq<Pile>, k: int, t: int, card: Card)
    requires 0 <= k < |ps| && 0 <= t < |ps| && k != t
    requires forall a, b :: 0 <= a < b < |ps| ==> ps[a] != ps[b]
    modifies ps[k], ps[t]
    ensures var cs := old(Contents(ps));
            Contents(ps) == cs[k := RemoveElement(cs[k], card)][t := cs[t] + [card]]
  {
    SetCards(ps, k, RemoveElement(ps[k].cards, card));
    SetCards(ps, t, ps[t].cards + [card]);
  }

  /** The loop of drop-table: every carried card leaves the origin pile in
      slot k for the table in slot t, and costs 5 points when the origin is a
      foundation stack. */
  method MoveCards(ps: seq<Pile>, k: int, t: int, cards: seq<Card>, stats: Stats)
    requires 0 <= k < |ps| && 0 <= t < |ps| && k != t
    requires forall a, b :: 0 <= a < b < |ps| ==> ps[a] != ps[b]
    modifies ps[k], ps[t], stats`points
    ensures Contents(ps) == DropPrefix(old(Contents(ps)), k, t, cards, |cards|)
    ensures stats.points == old(stats.points) - if ps[k].kind == Stack then 5 * |cards| else 0
  {
    ghost var cs, points := Contents(ps), stats.points;
    var pile := ps[k];
    assert RemoveEach(cs[k], cards[..0]) == cs[k] && cs[t] + cards[..0] == cs[t];
    assert DropPrefix(cs, k, t, cards, 0) == cs;
    for i := 0 to |cards|
      invariant Contents(ps) == DropPrefix(cs, k, t, cards, i)
      invariant stats.points == points - if pile.kind == Stack then 5 * i else 0
    {
      DropStep(cs, k, t, cards, i);
      MoveAndCharge(ps, k, t, cards[i], stats, pile.kind == Stack);
    }
  }

  /** The body of that loop: one card moves, and the points drop by 5 when
      the origin is a foundation stack. */
  method MoveAndCharge(ps: seq<Pile>, k: int, t: int, curr: Card, stats: Stats, fromStack: bool)
    requires 0 <= k < |ps| && 0 <= t < |ps| && k != t
    requires forall a, b :: 0 <= a < b < |ps| ==> ps[a] != ps[b]
    modifies ps[k], ps[t], stats`points
    ensures var cs := old(Contents(ps));
            Contents(ps) == cs[k := RemoveElement(cs[k], curr)][t := cs[t] + [curr]]
    ensures stats.points == old(stats.points) - if fromStack then 5 else 0
  {
    MoveOneCard(ps, k, t, curr);
    if fromStack {
      AddPoints(stats, -5);
    }
  }

  /** The test of drop-table: the table's slot t, the slot k of the pile
      findPileForCard returns for the first card, and whether the cards move. */
  method DropTarget(s: SolitaireState, cards: seq<Card>, table: Pile) returns (k: int, t: int, moved: bool)
    requires s.Valid() && table in s.tables
    ensures t == IndexOf(s.Piles(), table) && 0 <= t < 13
    ensures moved == DropTableMoves(Contents(s.Piles()), cards, t)
    ensures moved ==> k == CardUtil.HoldingIndex(Contents(s.Piles()), cards[0]) && 0 <= k < 13 && k != t
  {
    var ps := s.Piles();
    ghost var cs := Contents(ps);
    assert table in ps;
    t := IndexOf(ps, table);
    var card: Card? := if |cards| > 0 then cards[0] else null;
    k := FindHoldingSlot(s, card);
    moved := false;
    if k != -1 && k != t && |cards| > 0 {
      moved := TableMoveAllowed(table.cards, cards[0]);
    }
  }

  /** The pile work of drop-table. */
  method DropOnTable(s: SolitaireState, cards: seq<Card>, table: Pile) returns (moved: bool)
    requires s.Valid() && table in s.tables
    modifies s.Piles(), s.stats`points
    ensures var t := IndexOf(s.Piles(), table);
            && moved == DropTableMoves(old(Contents(s.Piles())), cards, t)
            && Contents(s.Piles()) == DropTableLayout(old(Contents(s.Piles())), cards, t)
            && s.stats.points == old(s.stats.points) - DropTablePenalty(old(Contents(s.Piles())), cards, t)
  {
    ghost var cs, points := Contents(s.Piles()), s.stats.points;
    var k, t;
    k, t, moved := DropTarget(s, cards, table);
    if moved {
      assert DropTablePenalty(cs, cards, t) == if 2 <= k < 6 then 5 * |cards| else 0;
      assert DropTableLayout(cs, cards, t) == cs[k := RemoveEach(cs[k], cards)][t := cs[t] + cards];
      TakeRun(s, k, t, cards);
    } else {
      assert DropTablePenalty(cs, cards, t) == 0 && DropTableLayout(cs, cards, t) == cs;
    }
  }

  /** The moving branch of drop-table, from slot k onto the table in slot t. */
  method TakeRun(s: SolitaireState, k: int, t: int, cards: seq<Card>)
    requires s.Valid() && 0 <= k < 13 && 0 <= t < 13 && k != t
    modifies s.Piles(), s.stats`points
    ensures Contents(s.Piles()) == old(Contents(s.Piles()))[k := RemoveEach(old(Contents(s.Piles()))[k], cards)]
                                     [t := old(Contents(s.Piles()))[t] + cards]
    ensures s.stats.points == old(s.stats.points) - if 2 <= k < 6 then 5 * |cards| else 0
  {
    var ps := s.Piles();
    s.PilesDistinct();
    assert ps[k].kind == Stack <==> 2 <= k < 6;
    MoveCards(ps, k, t, cards, s.stats);
    assert cards[..|cards|] == cards;
  }

  /** drop-table on the copied state: the move counts when the cards moved. */
  method ReduceDropTable(s: SolitaireState, cards: seq<Card>, table: Pile)
    requires s.Valid() && table in s.tables
    modifies s.Piles(), s`status, s.stats`moves, s.stats`points
    ensures Contents(s.Piles()) == DropTableLayout(old(Contents(s.Piles())), cards, IndexOf(s.Piles(), table))
    ensures s.status == WinStatus(Contents(s.Piles()), old(s.status))
    ensures s.stats.moves == old(s.stats.moves)
              + if DropTableMoves(old(Contents(s.Piles())), cards, IndexOf(s.Piles(), table)) then 1 else 0
    ensures s.stats.points == old(s.stats.points) - DropTablePenalty(old(Contents(s.Piles())), cards, IndexOf(s.Piles(), table))
  {
    var moveAllowed := DropOnTable(s, cards, table);
    CheckForWin(s, moveAllowed);
  }

  /** The part of a state game-reset installs. */
  datatype Fragment = Fragment(stats: Stats, stock: Pile, waste: Pile, stacks: seq<Pile>, tables: seq<Pile>)

  /** The actions the reducer handles. */
  datatype GameAction =
    | GameNew
    | GameLaunched
    | GameStop
    | GameReset(stateFragment: Fragment)
    | DrawStock(card: Card)
    | DrawWaste(card: Card)
    | DrawTable(card: Card, side: Side)
    | DropTable(cards: seq<Card>, table: Pile)
    | EmptyStock
  {
    /** The actions that work on the piles of the current state. */
    predicate IsMove() {
      DrawStock? || DrawWaste? || DrawTable? || DropTable? || EmptyStock?
    }
  }

  /** The cards whose side an action may set: the drawn card, or the waste that turns over. */
  function TurnedCards(a: GameAction, waste: seq<Card>): seq<Card> {
    if a.DrawStock? || a.DrawTable? then [a.card] else if a.EmptyStock? then waste else []
  }

  /** gameReducer for the actions that work on the piles: the shallow copy of
      the state, over the same piles and statistics, after the action's case. */
  method ReduceMove(state: SolitaireState, a: GameAction) returns (s: SolitaireState)
    requires state.Valid() && a.IsMove() && (a.DropTable? ==> a.table in state.tables)
    modifies state.Piles(), state.stats`moves, state.stats`points, TurnedCards(a, state.waste.cards)
    ensures fresh(s) && s.Piles() == state.Piles() && s.stats == state.stats && s.Valid()
    ensures s.status == WinStatus(Contents(s.Piles()), old(state.status))
    ensures a.DrawStock? ==> Contents(s.Piles()) == DrawStockLayout(old(Contents(state.Piles())), a.card)
    ensures a.EmptyStock? ==> Contents(s.Piles()) == EmptyStockLayout(old(Contents(state.Piles())))
    ensures a.DrawWaste? ==> Contents(s.Piles()) == DrawWasteLayout(old(Contents(state.Piles())), a.card)
    ensures a.DrawTable? ==> Contents(s.Piles()) == DrawTableLayout(old(Contents(state.Piles())), a.card, a.side)
    ensures a.DropTable? ==>
              Contents(s.Piles()) == DropTableLayout(old(Contents(state.Piles())), a.cards, IndexOf(state.Piles(), a.table))
    ensures a.DrawStock? ==>
              var moved := IsTopCard(old(state.stock.cards), a.card);
              && s.stats.moves == old(state.stats.moves) + (if moved then 1 else 0)
              && s.stats.points == old(state.stats.points)
              && a.card.side == if moved then Front else old(a.card.side)
    ensures a.EmptyStock? ==>
              var emptied := |old(state.stock.cards)| == 0;
              && s.stats.moves == old(state.stats.moves) + 1
              && s.stats.points == old(state.stats.points) - (if emptied then 15 else 0)
              && if emptied then FaceDown(old(state.waste.cards)) else unchanged(old(state.waste.cards))
    ensures a.DrawWaste? ==>
              var moved := DrawWasteMoves(old(Contents(state.Piles())), a.card);
              && s.stats.moves == old(state.stats.moves) + (if moved then 1 else 0)
              && s.stats.points == old(state.stats.points) + (if moved then 10 else 0)
    ensures a.DrawTable? ==>
              var turned := DrawTableTurns(old(Contents(state.Piles())), a.card, a.side, old(a.card.side));
              var moved := DrawTableMoves(old(Contents(state.Piles())), a.card, a.side);
              && s.stats.moves == old(state.stats.moves) + (if turned || moved then 1 else 0)
              && s.stats.points == old(state.stats.points) + (if turned then 10 else 0)
              && a.card.side == if turned then Front else old(a.card.side)
    ensures a.DropTable? ==>
              var t := IndexOf(state.Piles(), a.table);
              && s.stats.moves == old(state.stats.moves) + (if DropTableMoves(old(Contents(state.Piles())), a.cards, t) then 1 else 0)
              && s.stats.points == old(state.stats.points) - DropTablePenalty(old(Contents(state.Piles())), a.cards, t)
  {
    if a.DrawStock? || a.EmptyStock? {
      s := ReduceStockMove(state, a);
    } else if a.DrawWaste? || a.DrawTable? {
      s := ReduceDraw(state, a);
    } else {
      s := ReduceDrop(state, a);
    }
  }

  /** The cases of gameReducer that work on the stock: draw-stock and empty-stock. */
  method ReduceStockMove(state: SolitaireState, a: GameAction) returns (s: SolitaireState)
    requires state.Valid() && (a.DrawStock? || a.EmptyStock?)
    modifies state.Piles(), state.stats`moves, state.stats`points, TurnedCards(a, state.waste.cards)
    ensures fresh(s) && s.Piles() == state.Piles() && s.stats == state.stats && s.Valid()
    ensures s.status == WinStatus(Contents(s.Piles()), old(state.status))
    ensures a.DrawStock? ==> Contents(s.Piles()) == DrawStockLayout(old(Contents(state.Piles())), a.card)
    ensures a.EmptyStock? ==> Contents(s.Piles()) == EmptyStockLayout(old(Contents(state.Piles())))
    ensures a.DrawStock? ==>
              var moved := IsTopCard(old(state.stock.cards), a.card);
              && s.stats.moves == old(state.stats.moves) + (if moved then 1 else 0)
              && s.stats.points == old(state.stats.points)
              && a.card.side == if moved then Front else old(a.card.side)
    ensures a.EmptyStock? ==>
              var emptied := |old(state.stock.cards)| == 0;
              && s.stats.moves == old(state.stats.moves) + 1
              && s.stats.points == old(state.stats.points) - (if emptied then 15 else 0)
              && if emptied then FaceDown(old(state.waste.cards)) else unchanged(old(state.waste.cards))
  {
    ghost var cs0 := Contents(state.Piles());
    s := CopyState(state);
    assert s.Piles()[StockSlot] == s.stock && s.Piles()[WasteSlot] == s.waste;
    match a {
      case DrawStock(card) =>
        assert card in TurnedCards(a, state.waste.cards);
        ReduceDrawStock(s, card);
        assert Contents(s.Piles()) == DrawStockLayout(cs0, card);
      case EmptyStock =>
        ReduceEmptyStock(s);
        assert Contents(s.Piles()) == EmptyStockLayout(cs0);
    }
  }

  /** The cases of gameReducer that put a card onto its foundation stack: draw-waste and draw-table. */
  method ReduceDraw(state: SolitaireState, a: GameAction) returns (s: SolitaireState)
    requires state.Valid() && (a.DrawWaste? || a.DrawTable?)
    modifies state.Piles(), state.stats`moves, state.stats`points, TurnedCards(a, state.waste.cards)
    ensures fresh(s) && s.Piles() == state.Piles() && s.stats == state.stats && s.Valid()
    ensures s.status == WinStatus(Contents(s.Piles()), old(state.status))
    ensures a.DrawWaste? ==> Contents(s.Piles()) == DrawWasteLayout(old(Contents(state.Piles())), a.card)
    ensures a.DrawTable? ==> Contents(s.Piles()) == DrawTableLayout(old(Contents(state.Piles())), a.card, a.side)
    ensures a.DrawWaste? ==>
              var moved := DrawWasteMoves(old(Contents(state.Piles())), a.card);
              && s.stats.moves == old(state.stats.moves) + (if moved then 1 else 0)
              && s.stats.points == old(state.stats.points) + (if moved then 10 else 0)
    ensures a.DrawTable? ==>
              var turned := DrawTableTurns(old(Contents(state.Piles())), a.card, a.side, old(a.card.side));
              var moved := DrawTableMoves(old(Contents(state.Piles())), a.card, a.side);
              && s.stats.moves == old(state.stats.moves) + (if turned || moved then 1 else 0)
              && s.stats.points == old(state.stats.points) + (if turned then 10 else 0)
              && a.card.side == if turned then Front else old(a.card.side)
  {
    ghost var cs0 := Contents(state.Piles());
    s := CopyState(state);
    match a {
      case DrawWaste(card) =>
        ReduceDrawWaste(s, card);
        assert Contents(s.Piles()) == DrawWasteLayout(cs0, card);
      case DrawTable(card, side) =>
        assert card in TurnedCards(a, state.waste.cards);
        ReduceDrawTable(s, card, side);
        assert Contents(s.Piles()) == DrawTableLayout(cs0, card, side);
    }
  }

  /** The drop-table case of gameReducer. */
  method ReduceDrop(state: SolitaireState, a: GameAction) returns (s: SolitaireState)
    requires state.Valid() && a.DropTable? && a.table in state.tables
    modifies state.Piles(), state.stats`moves, state.stats`points
    ensures fresh(s) && s.Piles() == state.Piles() && s.stats == state.stats && s.Valid()
    ensures s.status == WinStatus(Contents(s.Piles()), old(state.status))
    ensures a.DropTable? ==>
              Contents(s.Piles()) == DropTableLayout(old(Contents(state.Piles())), a.cards, IndexOf(state.Piles(), a.table))
    ensures a.DropTable? ==>
              var t := IndexOf(state.Piles(), a.table);
              && s.stats.moves == old(state.stats.moves) + (if DropTableMoves(old(Contents(state.Piles())), a.cards, t) then 1 else 0)
              && s.stats.points == old(state.stats.points) - DropTablePenalty(old(Contents(state.Piles())), a.cards, t)
  {
    ghost var cs0 := Contents(state.Piles());
    s := CopyState(state);
    ReduceDropTable(s, a.cards, a.table);
    assert Contents(s.Piles()) == DropTableLayout(cs0, a.cards, IndexOf(state.Piles(), a.table));
  }

  /** The shallow copy `{ ...state }` of a valid state. */
  method CopyState(state: SolitaireState) returns (s: SolitaireState)
    requires state.Valid()
    ensures fresh(s) && s.status == state.status && s.Piles() == state.Piles() && s.stats == state.stats && s.Valid()
    ensures Contents(s.Piles()) == Contents(state.Piles())
  {
    s := new SolitaireState.Copy(state);
    assert s.Piles() == state.Piles();
  }

  /** gameReducer. game-new and game-stop return a new initial state, given
      here as `initial` (makeInitialState deals a shuffled deck); game-reset
      returns a new state made of the fragment's piles and statistics;
      game-launched and the moves return the shallow copy of the state. */
  method Reduce(state: SolitaireState, action: GameAction, initial: SolitaireState) returns (s: SolitaireState)
    requires state.Valid()
    requires action.DropTable? ==> action.table in state.tables
    modifies initial`status, state.Piles(), state.stats`moves, state.stats`points, TurnedCards(action, state.waste.cards)
    ensures action.GameNew? ==> s == initial && s.status == Launching
    ensures action.GameStop? ==> s == initial && s.status == Stopped
    ensures action.GameLaunched? ==>
              fresh(s) && s.status == Running && s.Piles() == state.Piles() && s.stats == state.stats
              && Contents(s.Piles()) == old(Contents(state.Piles()))
    ensures action.GameReset? ==>
              var f := action.stateFragment;
              fresh(s) && s.status == Running && s.stock == f.stock && s.waste == f.waste
              && s.stacks == f.stacks && s.tables == f.tables && s.stats == f.stats
    ensures action.IsMove() ==>
              && fresh(s) && s.Piles() == state.Piles() && s.stats == state.stats && s.Valid()
              && s.status == WinStatus(Contents(s.Piles()), old(state.status))
  {
    if action.IsMove() {
      s := ReduceMove(state, action);
    } else {
      s := ReduceLifecycle(state, action, initial);
    }
  }

  /** gameReducer for the actions that start, launch, stop or restore a game. */
  method ReduceLifecycle(state: SolitaireState, action: GameAction, initial: SolitaireState) returns (s: SolitaireState)
    requires !action.IsMove()
    modifies initial`status
    ensures action.GameNew? ==> s == initial && s.status == Launching
    ensures action.GameStop? ==> s == initial && s.status == Stopped
    ensures action.GameLaunched? ==>
              fresh(s) && s.status == Running && s.Piles() == state.Piles() && s.stats == state.stats
              && Contents(s.Piles()) == old(Contents(state.Piles()))
    ensures action.GameReset? ==>
              var f := action.stateFragment;
              fresh(s) && s.status == Running && s.stock == f.stock && s.waste == f.waste
              && s.stacks == f.stacks && s.tables == f.tables && s.stats == f.stats
  {
    if action.GameNew? {
      s := initial;
      SetStatus(s, Launching);
    } else if action.GameLaunched? {
      s := new SolitaireState.Copy(state);
      assert s.Piles() == state.Piles();
      SetStatus(s, Running);
    } else if action.GameStop? {
      s := initial;
      SetStatus(s, Stopped);
    } else {
      var f := action.stateFragment;
      s := new SolitaireState(Running, f.stock, f.waste, f.stacks, f.tables, f.stats);
    }
  }

  /** `s.status = status`. */
  method SetStatus(s: SolitaireState, status: Status)
    modifies s`status
    ensures s.status == status
  {
    s.status := status;
  }
}
