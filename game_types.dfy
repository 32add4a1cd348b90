/** The entities of the game: suits, ranks, card sides, the four kinds of
    pile, the game status, and the objects the rules engine updates in place
    (cards, piles, the statistics and the game state). */
module GameTypes {
  import opened Wrappers

  datatype Suit = Clubs | Spades | Hearts | Diamonds

  datatype Rank = Ace | Two | Three | Four | Five | Six | Seven | Eight | Nine | Ten | Jack | Queen | King

  datatype Side = Front | Back

  datatype SuitColor = Red | Black

  datatype PileType = Stock | Waste | Stack | Table

  datatype Status = Stopped | Launching | Running | Won

  /** The names the game uses for suits, ranks and pile types. */
  function SuitName(s: Suit): string {
    match s
    case Clubs => "clubs"
    case Spades => "spades"
    case Hearts => "hearts"
    case Diamonds => "diamonds"
  }

  function RankName(r: Rank): string {
    match r
    case Ace => "A"
    case Two => "2"
    case Three => "3"
    case Four => "4"
    case Five => "5"
    case Six => "6"
    case Seven => "7"
    case Eight => "8"
    case Nine => "9"
    case Ten => "10"
    case Jack => "J"
    case Queen => "Q"
    case King => "K"
  }

  function PileTypeName(t: PileType): string {
    match t
    case Stock => "stock"
    case Waste => "waste"
    case Stack => "stack"
    case Table => "table"
  }

  /** A playing card. Its suit and rank never change; the engine turns it over
      by assigning its side. Cards are told apart by identity, as objects. */
  class Card {
    const suit: Suit
    const rank: Rank
    var side: Side

    constructor (suit: Suit, rank: Rank, side: Side)
      ensures this.suit == suit && this.rank == rank && this.side == side
    {
      this.suit := suit;
      this.rank := rank;
      this.side := side;
    }
  }

  /** A pile: its type, its slot number among the piles of that type (none
      for the stock and the waste) and its cards, the last one on top. */
  class Pile {
    const kind: PileType
    const index: Option<int>
    var cards: seq<Card>

    constructor (kind: PileType, index: Option<int>, cards: seq<Card>)
      ensures this.kind == kind && this.index == index && this.cards == cards
    {
      this.kind := kind;
      this.index := index;
      this.cards := cards;
    }
  }

  class Stats {
    var moves: int
    var points: int
    const startTime: int

    constructor (moves: int, points: int, startTime: int)
      ensures this.moves == moves && this.points == points && this.startTime == startTime
    {
      this.moves := moves;
      this.points := points;
      this.startTime := startTime;
    }
  }

  /** The whole game: 1 stock, 1 waste, 4 foundation stacks, 7 tables. */
  class SolitaireState {
    var status: Status
    const stock: Pile
    const waste: Pile
    const stacks: seq<Pile>
    const tables: seq<Pile>
    const stats: Stats

    constructor (status: Status, stock: Pile, waste: Pile, stacks: seq<Pile>, tables: seq<Pile>, stats: Stats)
      ensures this.status == status && this.stock == stock && this.waste == waste
      ensures this.stacks == stacks && this.tables == tables && this.stats == stats
    {
      this.status := status;
      this.stock := stock;
      this.waste := waste;
      this.stacks := stacks;
      this.tables := tables;
      this.stats := stats;
    }

    /** The shallow copy `{ ...state }`: a new state object over the same piles and stats. */
    constructor Copy(other: SolitaireState)
      ensures status == other.status && stock == other.stock && waste == other.waste
      ensures stacks == other.stacks && tables == other.tables && stats == other.stats
    {
      status := other.status;
      stock := other.stock;
      waste := other.waste;
      stacks := other.stacks;
      tables := other.tables;
      stats := other.stats;
    }

    /** The shape every state of the game has: the piles carry their own type
        and slot number, so no two slots hold the same pile object. */
    ghost predicate Valid()
    {
      && stock.kind == Stock && stock.index == None
      && waste.kind == Waste && waste.index == None
      && |stacks| == 4 && |tables| == 7
      && (forall i :: 0 <= i < 4 ==> stacks[i].kind == Stack && stacks[i].index == Some(i))
      && (forall i :: 0 <= i < 7 ==> tables[i].kind == Table && tables[i].index == Some(i))
    }

    /** The piles in the order the lookups search them: stock, waste, stacks, tables. */
    function Piles(): (ps: seq<Pile>)
      ensures |ps| == 2 + |stacks| + |tables|
      ensures ps[0] == stock && ps[1] == waste
      ensures forall i :: 0 <= i < |stacks| ==> ps[2 + i] == stacks[i]
      ensures forall i :: 0 <= i < |tables| ==> ps[2 + |stacks| + i] == tables[i]
    {
      [stock, waste] + stacks + tables
    }

    ghost function PileSet(): set<Pile>
    {
      set p | p in Piles()
    }

    /** Every pile of a valid state sits in exactly one slot: no two slots
        hold piles of the same type and slot number, let alone the same pile. */
    lemma PilesDistinct()
      requires Valid()
      ensures forall i, j :: 0 <= i < j < |Piles()| ==>
                Piles()[i].kind != Piles()[j].kind || Piles()[i].index.GetOr(-1) != Piles()[j].index.GetOr(-1)
      ensures forall i, j :: 0 <= i < j < |Piles()| ==> Piles()[i] != Piles()[j]
    {
      var ps := Piles();
      forall i, j | 0 <= i < j < |ps|
        ensures ps[i].kind != ps[j].kind || ps[i].index.GetOr(-1) != ps[j].index.GetOr(-1)
      {
        if 2 <= i < 6 && 2 <= j < 6 {
          assert ps[i].index == Some(i - 2) && ps[j].index == Some(j - 2);
        } else if 6 <= i && 6 <= j {
          assert ps[i].index == Some(i - 6) && ps[j].index == Some(j - 6);
        } else if i < 2 && j < 2 {
          assert ps[i].kind != ps[j].kind;
        } else {
          assert ps[i].kind != ps[j].kind;
        }
      }
    }
  }

  /** The contents of the piles as a sequence of card sequences. */
  function Contents(ps: seq<Pile>): (c: seq<seq<Card>>)
    reads ps
    ensures |c| == |ps| && forall i :: 0 <= i < |ps| ==> c[i] == ps[i].cards
  {
    seq(|ps|, i requires 0 <= i < |ps| reads ps => ps[i].cards)
  }

  function Flatten(c: seq<seq<Card>>): seq<Card> {
    if |c| == 0 then [] else c[0] + Flatten(c[1..])
  }

  /** The cards of a sequence of piles, each pile's cards in order, one pile after another. */
  function CardsOf(ps: seq<Pile>): seq<Card>
    reads ps
  {
    Flatten(Contents(ps))
  }

  /** All cards of a state, as the multiset the game has to conserve. */
  ghost function Deck(s: SolitaireState): multiset<Card>
    reads s.PileSet()
  {
    multiset(CardsOf(s.Piles()))
  }

  /** A card is among the flattened cards exactly when one of the sequences holds it. */
  lemma {:induction false} InFlatten(xs: seq<seq<Card>>, c: Card)
    ensures c in Flatten(xs) <==> exists k :: 0 <= k < |xs| && c in xs[k]
  {
    if |xs| > 0 {
      InFlatten(xs[1..], c);
      if c in Flatten(xs) && c !in xs[0] {
        var k :| 0 <= k < |xs| - 1 && c in xs[1..][k];
        assert c in xs[k + 1];
      }
      if exists k :: 0 <= k < |xs| && c in xs[k] {
        var k :| 0 <= k < |xs| && c in xs[k];
        if k > 0 {
          assert c in xs[1..][k - 1];
        }
      }
    }
  }

  /** Replacing one of the sequences replaces its share of the flattened multiset. */
  lemma {:induction false} FlattenUpdate(xs: seq<seq<Card>>, i: int, v: seq<Card>)
    requires 0 <= i < |xs|
    ensures multiset(Flatten(xs[i := v])) + multiset(xs[i]) == multiset(Flatten(xs)) + multiset(v)
  {
    var ys := xs[i := v];
    if i == 0 {
      assert ys[1..] == xs[1..];
      assert Flatten(ys) == v + Flatten(xs[1..]);
      assert Flatten(xs) == xs[0] + Flatten(xs[1..]);
    } else {
      assert ys[1..] == xs[1..][i - 1 := v];
      FlattenUpdate(xs[1..], i - 1, v);
      assert xs[1..][i - 1] == xs[i];
      var a, b := multiset(Flatten(ys[1..])), multiset(Flatten(xs[1..]));
      assert a + multiset(xs[i]) == b + multiset(v);
      assert multiset(Flatten(ys)) == multiset(xs[0]) + a;
      assert multiset(Flatten(xs)) == multiset(xs[0]) + b;
      assert multiset(xs[0]) + a + multiset(xs[i]) == multiset(xs[0]) + (a + multiset(xs[i]));
      assert multiset(xs[0]) + b + multiset(v) == multiset(xs[0]) + (b + multiset(v));
    }
  }
}
