/** The input rules of src/game/GameRenderer.tsx: which cards a drag carries
    (computeAllDraggedCards), which cards may start a drag (mouseDown), which
    action a click dispatches (clickHandler) and what the end of a drag
    dispatches (endDrag). Pointer coordinates and the DOM are not modelled:
    the card under the pointer and the pile under the dragged cards are given. */
module GameRenderer {
  import opened Wrappers
  import opened Util
  import opened GameTypes
  import opened GameReducer
  import opened GameInvariants
  import CardUtil

  /** The table slots of a layout. */
  predicate IsTableSlot(k: int) {
    6 <= k < 13
  }

  /** computeAllDraggedCards on a layout: from a table, the card and every card
      above it; from any other pile, or from none, the card alone. */
  function DraggedCards(cs: seq<seq<Card>>, card: Card): seq<Card> {
    var k := CardUtil.HoldingIndex(cs, card);
    if IsTableSlot(k) then
      var index := IndexOf(cs[k], card);
      if index != -1 then cs[k][index..] else []
    else
      [card]
  }

  /** The carried cards start with the dragged card; from a table they are the
      top of the table from the card up, and otherwise the card alone. */
  lemma DraggedCardsShape(cs: seq<seq<Card>>, card: Card)
    requires |cs| == 13
    ensures var r := DraggedCards(cs, card);
            var k := CardUtil.HoldingIndex(cs, card);
            && |r| > 0 && r[0] == card
            && (IsTableSlot(k) ==> |r| <= |cs[k]| && cs[k] == cs[k][..|cs[k]| - |r|] + r && card !in cs[k][..|cs[k]| - |r|])
            && (!IsTableSlot(k) ==> r == [card])
  {
    var k := CardUtil.HoldingIndex(cs, card);
    if IsTableSlot(k) {
      var index := IndexOf(cs[k], card);
      assert cs[k] == cs[k][..index] + cs[k][index..];
    }
  }

  /** computeAllDraggedCards: nothing for a missing card; for a card on a
      table, a loop pushes the cards from the card's index to the top. */
  method ComputeAllDraggedCards(s: SolitaireState, card: Card?) returns (r: seq<Card>)
    requires s.Valid()
    ensures r == if card == null then [] else DraggedCards(Contents(s.Piles()), card)
  {
    if card == null {
      return [];
    }
    r := [];
    var ps := s.Piles();
    var k, kind := PileOfCard(s, card);
    ghost var cs := Contents(ps);
    DraggedCardsAt(cs, card, k);
    var cards := if k != -1 then ps[k].cards else [];
    assert k != -1 ==> cards == cs[k];
    r := DraggedFrom(cards, kind == Some(Table), card);
  }

  /** The branches of computeAllDraggedCards once the card's pile is known:
      from a table, the cards from the card's index up; otherwise the card. */
  method DraggedFrom(cards: seq<Card>, isTable: bool, card: Card) returns (r: seq<Card>)
    ensures r == if isTable then (var i := IndexOf(cards, card); if i != -1 then cards[i..] else []) else [card]
  {
    r := [];
    if isTable {
      var index := IndexOf(cards, card);
      if index != -1 {
        r := PushFrom(cards, index);
      }
    } else {
      r := [card];
    }
  }

  /** DraggedCards once the slot holding the card is known. */
  lemma DraggedCardsAt(cs: seq<seq<Card>>, card: Card, k: int)
    requires |cs| == 13 && k == CardUtil.HoldingIndex(cs, card)
    ensures IsTableSlot(k) ==> DraggedCards(cs, card) == (var i := IndexOf(cs[k], card); if i != -1 then cs[k][i..] else [])
    ensures !IsTableSlot(k) ==> DraggedCards(cs, card) == [card]
    ensures k != -1 ==> (SlotType(k) == Table <==> IsTableSlot(k))
  {
  }

  /** The loop of computeAllDraggedCards: the cards from `index` to the end, pushed in order. */
  method PushFrom(cards: seq<Card>, index: int) returns (r: seq<Card>)
    requires 0 <= index <= |cards|
    ensures r == cards[index..]
  {
    r := [];
    var i, n := index, |cards|;
    while i < n
      invariant index <= i <= n && r == cards[index..i]
    {
      assert cards[index..i + 1] == cards[index..i] + [cards[i]];
      r := r + [cards[i]];
      i := i + 1;
    }
  }

  /** The gating of mouseDown, for the card under the pointer and its side:
      the card's pile must be a table or have the card on top, must not be the
      stock, and a table card must lie face up. */
  predicate CanStartDrag(cs: seq<seq<Card>>, card: Card, side: Side)
    requires |cs| == 13
    ensures CanStartDrag(cs, card, side) ==>
              CardUtil.HoldingIndex(cs, card) != -1 && CardUtil.HoldingIndex(cs, card) != StockSlot
  {
    var k := CardUtil.HoldingIndex(cs, card);
    var lastInPile := k != -1 && cs[k][|cs[k]| - 1] == card;
    if !IsTableSlot(k) && !lastInPile then false
    else if k == StockSlot then false
    else if IsTableSlot(k) && side == Back then false
    else true
  }

  /** A drag starts exactly on a face-up table card, or on the top card of the
      waste or of a foundation stack: never on the stock, never below the top
      of a pile other than a table, never on a face-down card of a table. */
  lemma DragGate(cs: seq<seq<Card>>, card: Card, side: Side)
    requires |cs| == 13
    ensures var k := CardUtil.HoldingIndex(cs, card);
            CanStartDrag(cs, card, side) <==>
              || (IsTableSlot(k) && side == Front)
              || ((k == WasteSlot || 2 <= k < 6) && cs[k][|cs[k]| - 1] == card)
  {
  }

  /** The cards a drag may start with are the top of their pile, when the pile
      holds no card twice: what drop-table needs to keep the game's invariants. */
  lemma DraggedFromTop(cs: seq<seq<Card>>, card: Card, side: Side)
    requires |cs| == 13 && CanStartDrag(cs, card, side)
    requires var k := CardUtil.HoldingIndex(cs, card);
             forall i, j :: 0 <= i < j < |cs[k]| ==> cs[k][i] != cs[k][j]
    ensures FromTopOf(cs[CardUtil.HoldingIndex(cs, card)], DraggedCards(cs, card))
  {
    var k := CardUtil.HoldingIndex(cs, card);
    var pile, r := cs[k], DraggedCards(cs, card);
    DraggedCardsShape(cs, card);
    var m := |pile| - |r|;
    assert pile[m..] == r by {
      if IsTableSlot(k) {
        assert pile == pile[..m] + r;
      } else {
        assert pile[m..] == [pile[|pile| - 1]];
      }
    }
    forall i | 0 <= i < |r|
      ensures r[i] !in pile[..m]
    {
      assert r[i] == pile[m + i];
      assert forall j :: 0 <= j < m ==> pile[..m][j] == pile[j] != pile[m + i];
    }
  }

  /** Dragging cards that may be dragged onto a table keeps every card of the
      game and keeps the foundations ordered. */
  lemma DragAndDropKeepsGame(cs: seq<seq<Card>>, card: Card, side: Side, t: int)
    requires LayoutOrdered(cs) && CanStartDrag(cs, card, side) && IsTableSlot(t)
    requires var k := CardUtil.HoldingIndex(cs, card);
             forall i, j :: 0 <= i < j < |cs[k]| ==> cs[k][i] != cs[k][j]
    ensures var after := DropTableLayout(cs, DraggedCards(cs, card), t);
            LayoutOrdered(after) && multiset(Flatten(after)) == multiset(Flatten(cs))
  {
    var cards := DraggedCards(cs, card);
    DraggedCardsShape(cs, card);
    DraggedFromTop(cs, card, side);
    FromTopHeld(cs[CardUtil.HoldingIndex(cs, card)], cards);
    DropTableKeepsFoundations(cs, cards, t);
    DropTableConserves(cs, cards, t);
  }

  /** The drag in progress: `dragging`, `draggedCard`, `allDraggedCards` and `destinationPile`. */
  datatype Drag = Drag(dragging: bool, dragged: Option<Card>, carried: seq<Card>, destination: Option<Pile>)

  const Idle := Drag(false, None, [], None)

  /** mouseDown on a card: a drag starts, carrying the cards computeAllDraggedCards gives,
      when the gating allows it; otherwise nothing changes. */
  method MouseDown(s: SolitaireState, card: Card?, d: Drag) returns (r: Drag)
    requires s.Valid()
    ensures card == null || !CanStartDrag(Contents(s.Piles()), card, card.side) ==> r == d
    ensures card != null && CanStartDrag(Contents(s.Piles()), card, card.side) ==>
              r == Drag(true, Some(card), DraggedCards(Contents(s.Piles()), card), d.destination)
  {
    if card == null {
      return d;
    }
    ghost var cs, side := Contents(s.Piles()), card.side;
    var allowed := DragAllowed(s, card);
    assert allowed == CanStartDrag(cs, card, side);
    if !allowed {
      return d;
    }
    var dc := ComputeAllDraggedCards(s, card);
    assert Contents(s.Piles()) == cs && card.side == side;
    r := Drag(true, Some(card), dc, d.destination);
  }

  /** The early returns of mouseDown once the card is known: its pile is
      looked up with findPileForCard and the drag is refused off the top of a
      pile other than a table, on the stock, and on a face-down table card. */
  method DragAllowed(s: SolitaireState, card: Card) returns (allowed: bool)
    requires s.Valid()
    ensures allowed == CanStartDrag(Contents(s.Piles()), card, card.side)
  {
    var ps := s.Piles();
    var k, kind := PileOfCard(s, card);
    ghost var cs := Contents(ps);
    var lastInPile := k != -1 && ps[k].cards[|ps[k].cards| - 1] == card;
    assert lastInPile == (k != -1 && cs[k][|cs[k]| - 1] == card);
    GateAt(cs, card, card.side, k);
    allowed := Gate(kind, lastInPile, card.side);
  }

  /** The three early returns of mouseDown, on the type of the card's pile
      (None when no pile holds it), whether the card is that pile's top card,
      and the card's side. */
  method Gate(kind: Option<PileType>, lastInPile: bool, side: Side) returns (allowed: bool)
    ensures allowed <==> (kind == Some(Table) || lastInPile) && kind != Some(Stock) && !(kind == Some(Table) && side == Back)
  {
    if kind != Some(Table) && !lastInPile {
      return false;
    }
    if kind == Some(Stock) {
      return false;
    }
    if kind == Some(Table) && side == Back {
      return false;
    }
    return true;
  }

  /** CanStartDrag once the slot holding the card is known. */
  lemma GateAt(cs: seq<seq<Card>>, card: Card, side: Side, k: int)
    requires |cs| == 13 && k == CardUtil.HoldingIndex(cs, card)
    ensures var kind := if k == -1 then None else Some(SlotType(k));
            var lastInPile := k != -1 && cs[k][|cs[k]| - 1] == card;
            CanStartDrag(cs, card, side) <==>
              (kind == Some(Table) || lastInPile) && kind != Some(Stock) && !(kind == Some(Table) && side == Back)
  {
  }

  /** The type of the pile in each slot of a layout. */
  function SlotType(k: int): PileType {
    if k == StockSlot then Stock else if k == WasteSlot then Waste else if k < 6 then Stack else Table
  }

  /** findPileForCard and the type of the pile it finds (`pile?.type`): the
      slot of the first pile holding the card, and that pile's type. */
  method PileOfCard(s: SolitaireState, card: Card) returns (k: int, kind: Option<PileType>)
    requires s.Valid()
    ensures k == CardUtil.HoldingIndex(Contents(s.Piles()), card)
    ensures kind == if k == -1 then None else Some(SlotType(k))
  {
    k := FindHoldingSlot(s, card);
    if k == -1 {
      kind := None;
    } else {
      SlotKind(s, k);
      kind := Some(s.Piles()[k].kind);
    }
  }

  /** endDrag: drop-table is dispatched, with the carried cards, only when a
      card is dragged onto a table; the drag state is cleared in every case. */
  function EndDrag(d: Drag): (r: (Option<GameAction>, Drag))
    ensures r.1 == Idle
    ensures r.0.Some? <==> d.dragged.Some? && d.destination.Some? && d.destination.value.kind == Table
    ensures r.0.Some? ==> r.0.value == DropTable(d.carried, d.destination.value)
  {
    var action :=
      if d.dragged.Some? && d.destination.Some? && d.destination.value.kind == Table then
        Some(DropTable(d.carried, d.destination.value))
      else
        None;
    (action, Idle)
  }

  /** A table pile of a valid state is one of its tables: the drop-table an
      endDrag dispatches onto a pile of the state meets the reducer's demand. */
  lemma TablePileIsTable(s: SolitaireState, p: Pile)
    requires s.Valid() && p in s.Piles() && p.kind == Table
    ensures p in s.tables
  {
    var ps := s.Piles();
    var k :| 0 <= k < |ps| && ps[k] == p;
    SlotKind(s, k);
    assert ps[k] == s.tables[k - 6];
  }

  /** In a valid state the tables are the table slots, and the stock is slot 0. */
  lemma SlotKind(s: SolitaireState, k: int)
    requires s.Valid() && 0 <= k < 13
    ensures s.Piles()[k].kind == SlotType(k)
  {
    var ps := s.Piles();
    if 2 <= k < 6 {
      assert ps[k] == s.stacks[k - 2];
    } else if IsTableSlot(k) {
      assert ps[k] == s.tables[k - 6];
    }
  }

  /** clickHandler: the action a click on a pile, on one of its cards or on
      its empty place, dispatches. A table card is drawn with its own side. */
  function ClickAction(kind: PileType, card: Card?): (r: Option<GameAction>)
    reads card
    ensures r.None? <==> kind == Stack || (card == null && kind != Stock)
    ensures r.Some? ==> r.value.IsMove() && !r.value.DropTable?
    ensures r.Some? && card != null ==>
              (r.value.DrawStock? || r.value.DrawWaste? || r.value.DrawTable?) && r.value.card == card
    ensures r.Some? && r.value.DrawTable? ==> card != null && r.value.side == card.side
    ensures r.Some? ==> ((r.value.DrawStock? || r.value.EmptyStock?) <==> kind == Stock)
    ensures r.Some? ==> (r.value.EmptyStock? <==> card == null)
    ensures r.Some? ==> (r.value.DrawTable? <==> kind == Table) && (r.value.DrawWaste? <==> kind == Waste)
  {
    if card != null && kind == Stock then Some(DrawStock(card))
    else if card == null && kind == Stock then Some(EmptyStock)
    else if card != null && kind == Table then Some(DrawTable(card, card.side))
    else if card != null && kind == Waste then Some(DrawWaste(card))
    else
      assert kind.Stack? || kind.Stock? || kind.Table? || kind.Waste?;
      None
  }
}
