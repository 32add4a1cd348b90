/** The lookup and drag-target helpers of src/game/CardUtil.tsx (GameUtil).
    The DOM is abstracted: the elements found in the container are given as
    a list of entries, each with its identity, the value of its data-card or
    data-pile attribute, and its bounding rectangle. */
module CardUtil {
  import opened Wrappers
  import opened Util
  import opened GameTypes

  /** GameUtil.getSuitColor */
  function GetSuitColor(suit: Suit): (c: SuitColor)
    ensures c == Red <==> suit == Hearts || suit == Diamonds
    ensures c == Black <==> suit == Clubs || suit == Spades
  {
    match suit
    case Hearts => Red
    case Diamonds => Red
    case Clubs => Black
    case Spades => Black
  }

  /** GameUtil.cardId: the suit's initial, '_', and the rank, as in "h_10". */
  function CardId(card: Card): (id: string)
    ensures |id| >= 3 && id[1] == '_' && SuitOfInitial(id[0]) == Some(card.suit)
  {
    SuitInitialReadsBack(card.suit);
    SuitName(card.suit)[..1] + "_" + RankName(card.rank)
  }

  function SuitOfInitial(c: char): Option<Suit> {
    if c == 'c' then Some(Clubs)
    else if c == 's' then Some(Spades)
    else if c == 'h' then Some(Hearts)
    else if c == 'd' then Some(Diamonds)
    else None
  }

  function RankOfName(s: string): Option<Rank> {
    if s == "A" then Some(Ace)
    else if s == "2" then Some(Two)
    else if s == "3" then Some(Three)
    else if s == "4" then Some(Four)
    else if s == "5" then Some(Five)
    else if s == "6" then Some(Six)
    else if s == "7" then Some(Seven)
    else if s == "8" then Some(Eight)
    else if s == "9" then Some(Nine)
    else if s == "10" then Some(Ten)
    else if s == "J" then Some(Jack)
    else if s == "Q" then Some(Queen)
    else if s == "K" then Some(King)
    else None
  }

  /** The suit and rank a card id names, if it is one. */
  function ParseCardId(id: string): Option<(Suit, Rank)> {
    if |id| >= 2 && id[1] == '_' && SuitOfInitial(id[0]).Some? && RankOfName(id[2..]).Some? then
      Some((SuitOfInitial(id[0]).value, RankOfName(id[2..]).value))
    else
      None
  }

  /** Each suit is known by its initial, and each rank by its name. */
  lemma SuitInitialReadsBack(s: Suit)
    ensures SuitOfInitial(SuitName(s)[0]) == Some(s)
  {
  }

  lemma RankNameReadsBack(r: Rank)
    ensures RankOfName(RankName(r)) == Some(r)
  {
  }

  /** An id made of one character, '_' and a name splits back into the two. */
  lemma CardIdSplits(id: string, c: char, n: string)
    requires id == [c] + "_" + n
    ensures |id| >= 2 && id[0] == c && id[1] == '_' && id[2..] == n
  {
  }

  /** A card id reads back as the card's suit and rank. */
  lemma CardIdReadsBack(card: Card)
    ensures ParseCardId(CardId(card)) == Some((card.suit, card.rank))
  {
    var initial := SuitName(card.suit)[0];
    assert SuitName(card.suit)[..1] == [initial];
    CardIdSplits(CardId(card), initial, RankName(card.rank));
    SuitInitialReadsBack(card.suit);
    RankNameReadsBack(card.rank);
  }

  /** Two cards have the same id exactly when they have the same suit and rank. */
  lemma CardIdInjective(a: Card, b: Card)
    ensures CardId(a) == CardId(b) <==> a.suit == b.suit && a.rank == b.rank
  {
    CardIdReadsBack(a);
    CardIdReadsBack(b);
  }

  /** GameUtil.pileId: the pile type, '_', and the slot number (-1 when there is none). */
  function PileId(p: Pile): (id: string)
    ensures |id| > 6 && id[..5] == PileTypeName(p.kind) && id[5] == '_'
  {
    PileTypeName(p.kind) + "_" + IntToString(p.index.GetOr(-1))
  }

  /** Equal pile ids mean the same pile type and the same slot number. */
  lemma PileIdInjective(p: Pile, q: Pile)
    requires PileId(p) == PileId(q)
    ensures p.kind == q.kind && p.index.GetOr(-1) == q.index.GetOr(-1)
  {
    IdSplits(PileId(p), PileTypeName(p.kind), IntToString(p.index.GetOr(-1)));
    IdSplits(PileId(q), PileTypeName(q.kind), IntToString(q.index.GetOr(-1)));
    IntToStringInjective(p.index.GetOr(-1), q.index.GetOr(-1));
  }

  /** An id made of a five-letter type name, '_' and a number splits back into the two. */
  lemma IdSplits(id: string, t: string, n: string)
    requires id == t + "_" + n && |t| == 5
    ensures id[..5] == t && id[6..] == n
  {
  }

  /** The index of the first card sequence that holds the card, or -1. */
  function HoldingIndex(cs: seq<seq<Card>>, card: Card): (i: int)
    ensures -1 <= i < |cs|
    ensures i == -1 <==> forall k :: 0 <= k < |cs| ==> card !in cs[k]
    ensures 0 <= i ==> card in cs[i] && forall k :: 0 <= k < i ==> card !in cs[k]
  {
    if |cs| == 0 then -1
    else if card in cs[0] then 0
    else
      var k := HoldingIndex(cs[1..], card);
      if k == -1 then -1 else k + 1
  }

  /** The search of findCardById over a sequence of cards: nothing for a
      null or empty id, otherwise the first card with that id. */
  function CardWithId(cs: seq<Card>, id: Option<string>): Option<Card> {
    if id.None? || id.value == "" then None
    else
      var i := FirstIndex(cs, (c: Card) => CardId(c) == id.value);
      if i == -1 then None else Some(cs[i])
  }

  /** GameUtil.findCardById: the search runs over stock, waste, stacks and
      tables, each pile bottom to top. */
  function FindCardById(s: SolitaireState, id: Option<string>): (r: Option<Card>)
    reads s.PileSet()
    ensures r.Some? ==> id.Some? && r.value in CardsOf(s.Piles()) && CardId(r.value) == id.value
  {
    CardWithIdSpec(CardsOf(s.Piles()), id);
    CardWithId(CardsOf(s.Piles()), id)
  }

  /** What findCardById finds: nothing exactly when the id is missing or empty
      or no card has it; otherwise a card with that id, and no card before
      its first position has it. */
  lemma CardWithIdSpec(cs: seq<Card>, id: Option<string>)
    ensures var r := CardWithId(cs, id);
            && (r.None? <==> id.None? || id.value == "" || forall c :: c in cs ==> CardId(c) != id.value)
            && (r.Some? ==> && r.value in cs && CardId(r.value) == id.value
                            && forall k :: 0 <= k < IndexOf(cs, r.value) ==> CardId(cs[k]) != id.value)
  {
    if id.Some? && id.value != "" {
      var f := (c: Card) => CardId(c) == id.value;
      FirstIndexSpec(cs, f);
      var i := FirstIndex(cs, f);
      if i == -1 {
        forall c | c in cs
          ensures CardId(c) != id.value
        {
          var k :| 0 <= k < |cs| && cs[k] == c;
          assert !f(cs[k]);
        }
      } else {
        assert f(cs[i]);
      }
    }
  }

  /** The search of findPileById over a sequence of piles: nothing for a
      null or empty id, otherwise the first pile with that id. */
  function PileWithId(ps: seq<Pile>, id: Option<string>): Option<Pile> {
    if id.None? || id.value == "" then None
    else
      var i := FirstIndex(ps, (p: Pile) => PileId(p) == id.value);
      if i == -1 then None else Some(ps[i])
  }

  /** GameUtil.findPileById: the search runs over stock, waste, stacks and tables. */
  function FindPileById(s: SolitaireState, id: Option<string>): (r: Option<Pile>)
    ensures r.Some? ==> id.Some? && r.value in s.Piles() && PileId(r.value) == id.value
  {
    PileWithIdSpec(s.Piles(), id);
    PileWithId(s.Piles(), id)
  }

  /** What findPileById finds: nothing exactly when the id is missing or empty
      or no pile has it; otherwise a pile with that id, and no pile before it
      has it. */
  lemma PileWithIdSpec(ps: seq<Pile>, id: Option<string>)
    ensures var r := PileWithId(ps, id);
            && (r.None? <==> id.None? || id.value == "" || forall p :: p in ps ==> PileId(p) != id.value)
            && (r.Some? ==> && r.value in ps && PileId(r.value) == id.value
                            && forall k :: 0 <= k < IndexOf(ps, r.value) ==> PileId(ps[k]) != id.value)
  {
    if id.Some? && id.value != "" {
      var f := (p: Pile) => PileId(p) == id.value;
      FirstIndexSpec(ps, f);
      var i := FirstIndex(ps, f);
      if i == -1 {
        forall p | p in ps
          ensures PileId(p) != id.value
        {
          var k :| 0 <= k < |ps| && ps[k] == p;
          assert !f(ps[k]);
        }
      } else {
        assert f(ps[i]);
      }
    }
  }

  /** GameUtil.findPileForCard: nothing when the state or the card is missing;
      otherwise the first pile, in the order stock, waste, stacks, tables,
      that holds the card. */
  function FindPileForCard(s: SolitaireState?, card: Card?): (r: Option<Pile>)
    reads if s == null then {} else s.PileSet()
    ensures r.None? <==> s == null || card == null || forall p :: p in s.Piles() ==> card !in p.cards
    ensures r.Some? ==> s != null && card != null && var ps := s.Piles();
                        && r.value in ps && card in r.value.cards
                        && forall k :: 0 <= k < IndexOf(ps, r.value) ==> card !in ps[k].cards
  {
    if s == null || card == null then None
    else
      var ps := s.Piles();
      var i := HoldingIndex(Contents(ps), card);
      if i == -1 then None else Some(ps[i])
  }

  /** In a valid state every pile is found again from its own id. */
  lemma FindPileByIdOfPileId(s: SolitaireState, p: Pile)
    requires s.Valid() && p in s.Piles()
    ensures FindPileById(s, Some(PileId(p))) == Some(p)
  {
    var ps := s.Piles();
    PileWithIdSpec(ps, Some(PileId(p)));
    var r := FindPileById(s, Some(PileId(p)));
    var k := IndexOf(ps, p);
    assert r.Some?;
    var i := IndexOf(ps, r.value);
    if i != k {
      assert i < k;
      PileIdInjective(ps[i], p);
      s.PilesDistinct();
      assert false;
    }
  }

  /** The cards of the piles are the cards some pile holds. */
  lemma InCardsOf(ps: seq<Pile>, c: Card)
    ensures c in CardsOf(ps) <==> exists p :: p in ps && c in p.cards
  {
    var xs := Contents(ps);
    InFlatten(xs, c);
    if c in CardsOf(ps) {
      var k :| 0 <= k < |xs| && c in xs[k];
      assert ps[k] in ps;
    }
    if exists p :: p in ps && c in p.cards {
      var p :| p in ps && c in p.cards;
      var k :| 0 <= k < |ps| && ps[k] == p;
      assert c in xs[k];
    }
  }

  /** A card found by its id is held by one of the card sequences. */
  lemma FoundCardIsHeld(cs: seq<seq<Card>>, id: Option<string>)
    requires CardWithId(Flatten(cs), id).Some?
    ensures HoldingIndex(cs, CardWithId(Flatten(cs), id).value) != -1
  {
    var c := CardWithId(Flatten(cs), id).value;
    CardWithIdSpec(Flatten(cs), id);
    InFlatten(cs, c);
  }

  /** A card found by its id is found in some pile. */
  lemma FoundCardHasPile(s: SolitaireState, id: Option<string>)
    requires FindCardById(s, id).Some?
    ensures FindPileForCard(s, FindCardById(s, id).value).Some?
  {
    FoundCardIsHeld(Contents(s.Piles()), id);
  }

  /** Looking up the id of a card some pile of the state holds finds a card
      of the same suit and rank. */
  lemma FindCardByIdOfCardId(s: SolitaireState, c: Card)
    requires exists p :: p in s.Piles() && c in p.cards
    ensures FindCardById(s, Some(CardId(c))).Some?
    ensures var d := FindCardById(s, Some(CardId(c))).value; d.suit == c.suit && d.rank == c.rank
  {
    InCardsOf(s.Piles(), c);
    var d := FindCardById(s, Some(CardId(c)));
    CardWithIdSpec(CardsOf(s.Piles()), Some(CardId(c)));
    assert |CardId(c)| >= 2;
    if d.Some? {
      CardIdInjective(d.value, c);
    }
  }

  /** An axis-aligned rectangle, as from getBoundingClientRect. */
  datatype Rect = Rect(left: real, top: real, right: real, bottom: real)

  predicate WellFormed(r: Rect) {
    r.left <= r.right && r.top <= r.bottom
  }

  predicate ContainsPoint(r: Rect, x: real, y: real) {
    r.left <= x <= r.right && r.top <= y <= r.bottom
  }

  /** GameUtil.intersectRect: neither rectangle lies wholly to one side of the other. */
  function IntersectRect(r1: Rect, r2: Rect): (b: bool)
    ensures b <==> r2.left <= r1.right && r1.left <= r2.right && r2.top <= r1.bottom && r1.top <= r2.bottom
  {
    !(r2.left > r1.right || r2.right < r1.left || r2.top > r1.bottom || r2.bottom < r1.top)
  }

  /** For well-formed rectangles the test says that the two share a point
      (edges included). */
  lemma IntersectMeansCommonPoint(r1: Rect, r2: Rect)
    requires WellFormed(r1) && WellFormed(r2)
    ensures IntersectRect(r1, r2) <==> exists x, y :: ContainsPoint(r1, x, y) && ContainsPoint(r2, x, y)
  {
    if IntersectRect(r1, r2) {
      var x := if r1.left < r2.left then r2.left else r1.left;
      var y := if r1.top < r2.top then r2.top else r1.top;
      assert ContainsPoint(r1, x, y) && ContainsPoint(r2, x, y);
    }
  }

  lemma IntersectSymmetric(r1: Rect, r2: Rect)
    ensures IntersectRect(r1, r2) == IntersectRect(r2, r1)
  {
  }

  lemma IntersectReflexive(r: Rect)
    requires WellFormed(r)
    ensures IntersectRect(r, r)
  {
  }

  /** The rectangles share a piece of a vertical edge (one's right side is the
      other's left side and their vertical extents overlap) or of a
      horizontal edge (one's bottom is the other's top and their horizontal
      extents overlap). */
  predicate Touching(r1: Rect, r2: Rect) {
    || ((r1.right == r2.left || r2.right == r1.left) && r1.top <= r2.bottom && r2.top <= r1.bottom)
    || ((r1.bottom == r2.top || r2.bottom == r1.top) && r1.left <= r2.right && r2.left <= r1.right)
  }

  /** The rectangles have an interior point in common. */
  predicate InteriorsOverlap(r1: Rect, r2: Rect) {
    r2.left < r1.right && r1.left < r2.right && r2.top < r1.bottom && r1.top < r2.bottom
  }

  /** The test counts rectangles that only touch along an edge as
      intersecting, and those are the only intersecting rectangles whose
      interiors are apart. */
  lemma TouchingIntersects(r1: Rect, r2: Rect)
    requires WellFormed(r1) && WellFormed(r2)
    ensures Touching(r1, r2) ==> IntersectRect(r1, r2)
    ensures IntersectRect(r1, r2) && !InteriorsOverlap(r1, r2) ==> Touching(r1, r2)
  {
  }

  lemma SquareNonNegative(x: real)
    ensures x * x >= 0.0
  {
    if x < 0.0 {
      assert x * x == (-x) * (-x);
    }
  }

  function CenterX(r: Rect): real {
    r.left + (r.right - r.left) / 2.0
  }

  function CenterY(r: Rect): real {
    r.top + (r.bottom - r.top) / 2.0
  }

  /** GameUtil.distanceBetweenCenters, squared: the square root is monotone,
      so comparing squares picks the same candidates. */
  function DistanceSquared(p1: Rect, p2: Rect): (d: real)
    ensures d >= 0.0
  {
    var dx := CenterX(p1) - CenterX(p2);
    var dy := CenterY(p1) - CenterY(p2);
    SquareNonNegative(dx);
    SquareNonNegative(dy);
    dx * dx + dy * dy
  }

  /** The distance between centres does not depend on the order of the rectangles. */
  lemma DistanceSymmetric(p1: Rect, p2: Rect)
    ensures DistanceSquared(p1, p2) == DistanceSquared(p2, p1)
  {
    var dx, dy := CenterX(p1) - CenterX(p2), CenterY(p1) - CenterY(p2);
    assert (-dx) * (-dx) == dx * dx && (-dy) * (-dy) == dy * dy;
  }

  /** A rectangle is at distance zero from itself. */
  lemma DistanceToSelf(p: Rect)
    ensures DistanceSquared(p, p) == 0.0
  {
  }

  /** An element of the container: its identity, the value of its data-card or
      data-pile attribute, and its bounding rectangle. */
  datatype Element = Element(key: int, attr: Option<string>, rect: Rect)

  /** A drop target: the pile, the element that was hit and, for a card-level
      hit, the card. */
  datatype PileInfo = PileInfo(pile: Pile, elem: Element, card: Option<Card>)

  /** The pile tier is stated over the piles in search order, ps.
      Entry j of the pile backgrounds is a candidate when it names a pile
      and meets the dragged rectangle. */
  ghost function PileCandidates(ps: seq<Pile>, elems: seq<Element>, drag: Rect): int -> bool {
    j => 0 <= j < |elems| && PileWithId(ps, elems[j].attr).Some? && IntersectRect(drag, elems[j].rect)
  }

  /** The squared distance of entry j's rectangle from the dragged one. */
  ghost function Distances(elems: seq<Element>, drag: Rect): int -> real {
    j => if 0 <= j < |elems| then DistanceSquared(drag, elems[j].rect) else 0.0
  }

  /** What the pile tier returns: nothing when no pile background meets the
      dragged rectangle, otherwise the nearest one, the first of them on a tie. */
  ghost predicate ClosestPileResult(ps: seq<Pile>, elems: seq<Element>, drag: Rect, r: Option<PileInfo>) {
    var cand := PileCandidates(ps, elems, drag);
    && (r.None? <==> forall j :: 0 <= j < |elems| ==> !cand(j))
    && (r.Some? ==> exists k :: Nearest(cand, Distances(elems, drag), |elems|, k)
                              && r.value == PileInfo(PileWithId(ps, elems[k].attr).value, elems[k], None))
  }

  /** Where the pile scan stands after the entries before i: r and dist are
      the choice so far and its distance, best the entry it came from. */
  ghost predicate PileScan(ps: seq<Pile>, elems: seq<Element>, drag: Rect, i: int,
                           r: Option<PileInfo>, dist: Option<real>, best: int)
  {
    var cand := PileCandidates(ps, elems, drag);
    && 0 <= i <= |elems|
    && (r.None? <==> forall j :: 0 <= j < i ==> !cand(j))
    && (r.None? <==> dist.None?)
    && (r.Some? ==> && best < |elems| && Nearest(cand, Distances(elems, drag), i, best)
                    && dist == Some(Distances(elems, drag)(best))
                    && r.value == PileInfo(PileWithId(ps, elems[best].attr).value, elems[best], None))
  }

  /** One entry of the pile scan: a candidate strictly nearer than the choice
      so far replaces it; anything else leaves it. */
  lemma PileScanStep(ps: seq<Pile>, elems: seq<Element>, drag: Rect, i: int,
                     r: Option<PileInfo>, dist: Option<real>, best: int)
    requires 0 <= i < |elems| && PileScan(ps, elems, drag, i, r, dist, best)
    ensures var d := DistanceSquared(drag, elems[i].rect);
            if PileCandidates(ps, elems, drag)(i) && (dist.None? || d < dist.value) then
              PileScan(ps, elems, drag, i + 1, Some(PileInfo(PileWithId(ps, elems[i].attr).value, elems[i], None)), Some(d), i)
            else
              PileScan(ps, elems, drag, i + 1, r, dist, best)
  {
    var cand := PileCandidates(ps, elems, drag);
    var dists := Distances(elems, drag);
    var d := DistanceSquared(drag, elems[i].rect);
    if cand(i) && (dist.None? || d < dist.value) {
      NearestNew(cand, dists, i);
    } else if r.Some? {
      NearestKeep(cand, dists, i, best);
    }
  }

  /** GameUtil.findClosestPile over the container's pile backgrounds. */
  method FindClosestPile(s: SolitaireState, elems: seq<Element>, target: Element) returns (r: Option<PileInfo>)
    ensures ClosestPileResult(s.Piles(), elems, target.rect, r)
    ensures r.Some? ==> r.value.card.None?
  {
    ghost var ps := s.Piles();
    var drag := target.rect;
    r := None;
    var dist: Option<real> := None;
    ghost var best := 0;
    for i := 0 to |elems|
      invariant ps == s.Piles()
      invariant PileScan(ps, elems, drag, i, r, dist, best)
    {
      var e := elems[i];
      PileScanStep(ps, elems, drag, i, r, dist, best);
      var pile := FindPileById(s, e.attr);
      if pile.None? {
        continue;
      }
      if IntersectRect(drag, e.rect) {
        var d := DistanceSquared(drag, e.rect);
        if dist.None? || d < dist.value {
          dist := Some(d);
          r := Some(PileInfo(pile.value, e, None));
          best := i;
        }
      }
    }
  }

  /** The card tier is stated over the piles in search order, ps, and their
      cards, cs == Contents(ps).

      The card is lifted together with the dragged card: both lie in the same
      pile and the card is above the dragged one. */
  ghost predicate LiftedWith(ps: seq<Pile>, cs: seq<seq<Card>>, card: Card, dragged: Card)
  {
    var kd := HoldingIndex(cs, dragged);
    var kc := HoldingIndex(cs, card);
    && |cs| == |ps| && card != dragged && kd != -1 && kc != -1 && ps[kd] == ps[kc]
    && IndexOf(cs[kc], card) > IndexOf(cs[kc], dragged)
  }

  /** A card element is a candidate when it is not the dragged element, a card
      is being dragged, the element names a card of the game that is not
      lifted with the dragged card, and it meets the dragged rectangle. */
  ghost predicate CardCandidate(ps: seq<Pile>, cs: seq<seq<Card>>, e: Element, target: Element, dragged: Card?)
  {
    var card := CardWithId(Flatten(cs), e.attr);
    && e.key != target.key && dragged != null
    && card.Some? && !LiftedWith(ps, cs, card.value, dragged)
    && IntersectRect(target.rect, e.rect)
  }

  ghost function CardCandidates(ps: seq<Pile>, cs: seq<seq<Card>>, elems: seq<Element>, target: Element, dragged: Card?): int -> bool {
    j => 0 <= j < |elems| && CardCandidate(ps, cs, elems[j], target, dragged)
  }

  /** The card-level result for an element: the card's pile, the element and the card. */
  ghost function CardHit(ps: seq<Pile>, cs: seq<seq<Card>>, e: Element): Option<PileInfo> {
    var card := CardWithId(Flatten(cs), e.attr);
    if card.None? then None
    else
      var k := HoldingIndex(cs, card.value);
      if k == -1 || |cs| != |ps| then None else Some(PileInfo(ps[k], e, card))
  }

  /** Some card element is a candidate. */
  ghost predicate AnyCardCandidate(ps: seq<Pile>, cs: seq<seq<Card>>, elems: seq<Element>, target: Element, dragged: Card?) {
    exists j :: 0 <= j < |elems| && CardCandidates(ps, cs, elems, target, dragged)(j)
  }

  /** What the card tier returns: the hit of the nearest card candidate, the
      first of them on a tie. */
  ghost predicate CardTierResult(ps: seq<Pile>, cs: seq<seq<Card>>, elems: seq<Element>, target: Element, dragged: Card?, r: Option<PileInfo>) {
    exists k :: Nearest(CardCandidates(ps, cs, elems, target, dragged), Distances(elems, target.rect), |elems|, k)
                && r == CardHit(ps, cs, elems[k])
  }

  /** The state of the card tier after the first i card elements: the
      candidate so far is the hit of the nearest card candidate among them,
      with its distance, or nothing when none of them is a candidate. */
  ghost predicate CardScan(ps: seq<Pile>, cs: seq<seq<Card>>, elems: seq<Element>, i: int, target: Element, dragged: Card?,
                           r: Option<PileInfo>, dist: Option<real>, best: int)
  {
    var cand := CardCandidates(ps, cs, elems, target, dragged);
    var dists := Distances(elems, target.rect);
    && (r.None? <==> forall j :: 0 <= j < i ==> !cand(j))
    && (r.None? <==> dist.None?)
    && (r.Some? ==> && Nearest(cand, dists, i, best) && dist == Some(dists(best))
                    && best < |elems| && r == CardHit(ps, cs, elems[best]) && r.value.card.Some?)
  }

  /** One step of the card tier: a candidate strictly nearer than the choice
      so far becomes the choice; anything else leaves it alone. */
  lemma CardScanStep(ps: seq<Pile>, cs: seq<seq<Card>>, elems: seq<Element>, i: int, target: Element, dragged: Card?,
                     r: Option<PileInfo>, dist: Option<real>, best: int)
    requires cs == Contents(ps) && 0 <= i < |elems|
    requires CardScan(ps, cs, elems, i, target, dragged, r, dist, best)
    ensures var cand := CardCandidates(ps, cs, elems, target, dragged);
            var d := Distances(elems, target.rect)(i);
            if cand(i) && (dist.None? || d < dist.value) then
              CardScan(ps, cs, elems, i + 1, target, dragged, CardHit(ps, cs, elems[i]), Some(d), i)
            else
              CardScan(ps, cs, elems, i + 1, target, dragged, r, dist, best)
  {
    var cand := CardCandidates(ps, cs, elems, target, dragged);
    var dists := Distances(elems, target.rect);
    if cand(i) && (dist.None? || dists(i) < dist.value) {
      NearestNew(cand, dists, i);
      FoundCardIsHeld(cs, elems[i].attr);
    } else if r.Some? {
      NearestKeep(cand, dists, i, best);
    }
  }

  /** The callback that findClosestPileAndCard runs for one card element:
      each early return of the source is a return here. */
  method VisitCard(s: SolitaireState, elems: seq<Element>, i: int, target: Element, dragged: Card?,
                   r: Option<PileInfo>, dist: Option<real>, ghost ps: seq<Pile>, ghost cs: seq<seq<Card>>, ghost best: int)
    returns (r': Option<PileInfo>, dist': Option<real>, ghost best': int)
    requires ps == s.Piles() && cs == Contents(ps) && 0 <= i < |elems|
    requires CardScan(ps, cs, elems, i, target, dragged, r, dist, best)
    ensures CardScan(ps, cs, elems, i + 1, target, dragged, r', dist', best')
  {
    ghost var cand := CardCandidates(ps, cs, elems, target, dragged);
    CardScanStep(ps, cs, elems, i, target, dragged, r, dist, best);
    r', dist', best' := r, dist, best;
    var e := elems[i];
    if e.key == target.key {
      return;
    }
    if dragged == null {
      return;
    }
    var card := FindCardById(s, e.attr);
    if card.None? {
      return;
    }
    var cardPile := FindPileForCard(s, card.value);
    var draggedPile := FindPileForCard(s, dragged);
    ghost var kc, kd := HoldingIndex(cs, card.value), HoldingIndex(cs, dragged);
    assert cardPile == if kc == -1 then None else Some(ps[kc]);
    assert draggedPile == if kd == -1 then None else Some(ps[kd]);
    if card.value != dragged && draggedPile.Some? && draggedPile == cardPile {
      var cardIndex := IndexOf(cardPile.value.cards, card.value);
      var draggedIndex := IndexOf(cardPile.value.cards, dragged);
      if cardIndex > draggedIndex {
        return;
      }
    }
    assert cand(i) <==> IntersectRect(target.rect, e.rect);
    if IntersectRect(target.rect, e.rect) {
      var d := DistanceSquared(target.rect, e.rect);
      if dist.None? || d < dist.value {
        dist' := Some(d);
        FoundCardIsHeld(cs, e.attr);
        if cardPile.Some? {
          r' := Some(PileInfo(cardPile.value, e, card));
        }
        best' := i;
      }
    }
  }

  /** GameUtil.findClosestPileAndCard: the nearest card element first; only
      when there is none, the nearest pile background. */
  method FindClosestPileAndCard(s: SolitaireState, cardElems: seq<Element>, pileElems: seq<Element>, target: Element, dragged: Card?)
    returns (r: Option<PileInfo>)
    ensures var ps := s.Piles(); var cs := Contents(ps);
            && (AnyCardCandidate(ps, cs, cardElems, target, dragged) ==> CardTierResult(ps, cs, cardElems, target, dragged, r))
            && (r.Some? && r.value.card.Some? ==> CardTierResult(ps, cs, cardElems, target, dragged, r))
            && (!AnyCardCandidate(ps, cs, cardElems, target, dragged) ==> ClosestPileResult(ps, pileElems, target.rect, r))
  {
    ghost var ps := s.Piles();
    ghost var cs := Contents(ps);
    r := None;
    var dist: Option<real> := None;
    ghost var best := 0;
    for i := 0 to |cardElems|
      invariant ps == s.Piles() && cs == Contents(ps)
      invariant CardScan(ps, cs, cardElems, i, target, dragged, r, dist, best)
    {
      r, dist, best := VisitCard(s, cardElems, i, target, dragged, r, dist, ps, cs, best);
    }
    if r.None? {
      assert !AnyCardCandidate(ps, cs, cardElems, target, dragged);
      r := FindClosestPile(s, pileElems, target);
    } else {
      assert CardTierResult(ps, cs, cardElems, target, dragged, r);
    }
  }
}
