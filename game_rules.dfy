/** The pure rules of src/game/Game.tsx: the suit and rank indices, which card
    a foundation stack or a tableau pile accepts, when a game is won, and the
    card-sequence operations the reducer applies to piles. */
module GameRules {
  import opened Wrappers
  import opened Util
  import opened GameTypes
  import CardUtil

  /** suitToIndex: the foundation stack a suit belongs on. */
  function SuitToIndex(s: Suit): (i: int)
    ensures 0 <= i < 4
  {
    match s
    case Clubs => 0
    case Spades => 1
    case Hearts => 2
    case Diamonds => 3
  }

  /** Each suit has a stack of its own. */
  lemma SuitToIndexInjective(a: Suit, b: Suit)
    ensures SuitToIndex(a) == SuitToIndex(b) <==> a == b
  {
  }

  /** The ranks in order, ten written as '0' so that every rank is one character. */
  const RankOrder: string := "A234567890JQK"

  /** The character rankToIndex looks up: "0" for the ten, the rank's name otherwise. */
  function RankKey(r: Rank): char {
    if r == Ten then '0' else RankName(r)[0]
  }

  /** rankToIndex: the position of the rank's key in RankOrder. */
  function RankToIndex(r: Rank): (i: int)
    ensures -1 <= i < |RankOrder|
  {
    IndexOf(RankOrder, RankKey(r))
  }

  /** The next higher rank, listed independently of RankOrder. */
  function NextRank(r: Rank): Option<Rank> {
    match r
    case Ace => Some(Two)
    case Two => Some(Three)
    case Three => Some(Four)
    case Four => Some(Five)
    case Five => Some(Six)
    case Six => Some(Seven)
    case Seven => Some(Eight)
    case Eight => Some(Nine)
    case Nine => Some(Ten)
    case Ten => Some(Jack)
    case Jack => Some(Queen)
    case Queen => Some(King)
    case King => None
  }

  /** The position of a rank counted from the Ace, listed independently of RankOrder. */
  function RankNumber(r: Rank): (n: nat)
    ensures n < 13
  {
    match r
    case Ace => 0
    case Two => 1
    case Three => 2
    case Four => 3
    case Five => 4
    case Six => 5
    case Seven => 6
    case Eight => 7
    case Nine => 8
    case Ten => 9
    case Jack => 10
    case Queen => 11
    case King => 12
  }

  /** Every rank is found in RankOrder, at its position counted from the Ace. */
  lemma RankToIndexIsNumber(r: Rank)
    ensures RankToIndex(r) == RankNumber(r)
  {
    var k := RankNumber(r);
    var key := RankKey(r);
    assert RankOrder[k] == key by {
      match r
      case Ace => case Two => case Three => case Four => case Five => case Six =>
      case Seven => case Eight => case Nine => case Ten => case Jack => case Queen => case King =>
    }
    assert key !in RankOrder[..k] by {
      match r
      case Ace => case Two => case Three => case Four => case Five => case Six =>
      case Seven => case Eight => case Nine => case Ten => case Jack => case Queen => case King =>
    }
    IndexOfAt(RankOrder, key, k);
  }

  /** One rank index is the other's plus one exactly when it is the next rank. */
  lemma RankIndexSuccessor(lower: Rank, higher: Rank)
    ensures RankToIndex(higher) == RankToIndex(lower) + 1 <==> NextRank(lower) == Some(higher)
  {
    RankToIndexIsNumber(lower);
    RankToIndexIsNumber(higher);
    NextRankNumber(lower);
    if RankNumber(higher) == RankNumber(lower) + 1 {
      RankNumberInjective(NextRank(lower).value, higher);
    }
  }

  /** Every rank but the King has a next rank, numbered one higher. */
  lemma NextRankNumber(r: Rank)
    ensures NextRank(r).Some? <==> r != King
    ensures NextRank(r).Some? ==> RankNumber(NextRank(r).value) == RankNumber(r) + 1
  {
  }

  /** The ranks in order from the Ace. */
  const Ranks: seq<Rank> := [Ace, Two, Three, Four, Five, Six, Seven, Eight, Nine, Ten, Jack, Queen, King]

  /** No two ranks share a number. */
  lemma RankNumberInjective(a: Rank, b: Rank)
    requires RankNumber(a) == RankNumber(b)
    ensures a == b
  {
    assert Ranks[RankNumber(a)] == a && Ranks[RankNumber(b)] == b by {
      assert forall r: Rank :: Ranks[RankNumber(r)] == r;
    }
  }

  /** stackMoveAllowed over the cards of the stack. */
  function StackMoveAllowed(stack: seq<Card>, card: Card): (ok: bool)
    ensures |stack| == 0 ==> (ok <==> card.rank == Ace)
    ensures ok && |stack| > 0 ==> card.suit == stack[|stack| - 1].suit
  {
    if |stack| == 0 then
      card.rank == Ace
    else
      var top := stack[|stack| - 1];
      top.suit == card.suit && RankToIndex(card.rank) == RankToIndex(top.rank) + 1
  }

  /** An empty stack accepts exactly an Ace; any other stack exactly the next
      rank of the suit of its top card. */
  lemma StackMoveRule(stack: seq<Card>, card: Card)
    ensures StackMoveAllowed(stack, card) <==>
            if |stack| == 0 then card.rank == Ace
            else stack[|stack| - 1].suit == card.suit && NextRank(stack[|stack| - 1].rank) == Some(card.rank)
  {
    if |stack| > 0 {
      RankIndexSuccessor(stack[|stack| - 1].rank, card.rank);
    }
  }

  /** The test tableMoveAllowed makes against a table's top card: the other
      colour, one rank lower. */
  predicate FitsBelow(top: Card, card: Card) {
    CardUtil.GetSuitColor(top.suit) != CardUtil.GetSuitColor(card.suit)
    && RankToIndex(card.rank) == RankToIndex(top.rank) - 1
  }

  /** tableMoveAllowed over the cards of the table. */
  function TableMoveAllowed(table: seq<Card>, card: Card): (ok: bool)
    ensures |table| == 0 ==> ok
    ensures ok && |table| > 0 ==> CardUtil.GetSuitColor(table[|table| - 1].suit) != CardUtil.GetSuitColor(card.suit)
  {
    if |table| == 0 then
      true
    else
      FitsBelow(table[|table| - 1], card)
  }

  /** An empty table accepts any card; any other table exactly a card of the
      other colour one rank below its top card. */
  lemma TableMoveRule(table: seq<Card>, card: Card)
    ensures TableMoveAllowed(table, card) <==>
            if |table| == 0 then true
            else CardUtil.GetSuitColor(table[|table| - 1].suit) != CardUtil.GetSuitColor(card.suit)
                 && NextRank(card.rank) == Some(table[|table| - 1].rank)
  {
    if |table| > 0 {
      RankIndexSuccessor(card.rank, table[|table| - 1].rank);
    }
  }

  /** Foundation stack k holds cards of the suit with index k, Ace first, each
      one rank above the card below it. */
  ghost predicate FoundationsOrdered(stacks: seq<seq<Card>>) {
    forall k, j :: 0 <= k < |stacks| && 0 <= j < |stacks[k]| ==>
      SuitToIndex(stacks[k][j].suit) == k && RankNumber(stacks[k][j].rank) == j
  }

  /** Putting a card that stackMoveAllowed accepts onto its suit's stack keeps
      the foundations ordered. */
  lemma FoundationPush(stacks: seq<seq<Card>>, card: Card)
    requires |stacks| == 4 && FoundationsOrdered(stacks)
    requires StackMoveAllowed(stacks[SuitToIndex(card.suit)], card)
    ensures FoundationsOrdered(stacks[SuitToIndex(card.suit) := stacks[SuitToIndex(card.suit)] + [card]])
  {
    StackPushRank(stacks[SuitToIndex(card.suit)], card);
    FoundationAppend(stacks, SuitToIndex(card.suit), card);
  }

  /** Appending to stack k the card of suit k whose rank counts the cards
      already there keeps the foundations ordered. */
  lemma FoundationAppend(stacks: seq<seq<Card>>, k: int, card: Card)
    requires 0 <= k < |stacks| && FoundationsOrdered(stacks)
    requires SuitToIndex(card.suit) == k && RankNumber(card.rank) == |stacks[k]|
    ensures FoundationsOrdered(stacks[k := stacks[k] + [card]])
  {
    var n := |stacks[k]|;
    var t: seq<seq<Card>> := stacks[k := stacks[k] + [card]];
    forall m: int, j: int | 0 <= m < |t| && 0 <= j < |t[m]|
      ensures SuitToIndex(t[m][j].suit) == m && RankNumber(t[m][j].rank) == j
    {
      if m != k || j < n {
        assert t[m][j] == stacks[m][j];
      } else {
        assert t[m][j] == card;
      }
    }
  }

  /** A card a stack accepts is one rank above the top card. */
  lemma StackPushRank(st: seq<Card>, card: Card)
    requires StackMoveAllowed(st, card)
    ensures |st| == 0 ==> RankNumber(card.rank) == 0
    ensures |st| > 0 ==> RankNumber(card.rank) == RankNumber(st[|st| - 1].rank) + 1 && card.suit == st[|st| - 1].suit
  {
    if |st| > 0 {
      RankToIndexIsNumber(card.rank);
      RankToIndexIsNumber(st[|st| - 1].rank);
    }
  }

  /** A run of cards as the tableau builds them: each card one rank
      below the card beneath it, and of the other colour. */
  predicate TableauRun(cards: seq<Card>) {
    forall i :: 0 < i < |cards| ==> FitsBelow(cards[i - 1], cards[i])
  }

  /** Dropping a run onto a run whose top card accepts the run's first card gives a run. */
  lemma TableauDrop(table: seq<Card>, run: seq<Card>)
    requires TableauRun(table) && TableauRun(run) && |run| > 0
    requires TableMoveAllowed(table, run[0])
    ensures TableauRun(table + run)
  {
    var t := table + run;
    forall i | 0 < i < |t|
      ensures FitsBelow(t[i - 1], t[i])
    {
      if i < |table| {
        assert t[i - 1] == table[i - 1] && t[i] == table[i];
      } else if i == |table| {
        assert t[i - 1] == table[|table| - 1] && t[i] == run[0];
      } else {
        var j := i - |table|;
        assert t[i] == run[j] && t[i - 1] == run[j - 1];
      }
    }
  }

  /** The total length of a sequence of card sequences (the source's reduce over pile lengths). */
  function SumLengths(cs: seq<seq<Card>>): nat {
    if |cs| == 0 then 0 else |cs[0]| + SumLengths(cs[1..])
  }

  /** The reduce over the pile lengths counts every card of the piles. */
  lemma {:induction false} SumLengthsFlatten(cs: seq<seq<Card>>)
    ensures SumLengths(cs) == |Flatten(cs)|
  {
    if |cs| > 0 {
      SumLengthsFlatten(cs[1..]);
    }
  }

  /** How many of the stacks hold exactly size cards. */
  function CountComplete(stacks: seq<seq<Card>>, size: int): nat {
    if |stacks| == 0 then 0
    else CountComplete(stacks[..|stacks| - 1], size) + (if |stacks[|stacks| - 1]| == size then 1 else 0)
  }

  /** No more stacks are complete than there are stacks, and all of them are
      exactly when each holds size cards. */
  lemma {:induction false} CountCompleteAll(stacks: seq<seq<Card>>, size: int)
    ensures CountComplete(stacks, size) <= |stacks|
    ensures CountComplete(stacks, size) == |stacks| <==> forall k :: 0 <= k < |stacks| ==> |stacks[k]| == size
  {
    if |stacks| > 0 {
      CountCompleteAll(stacks[..|stacks| - 1], size);
    }
  }

  /** The number of cards in the game. */
  function DeckSize(stock: seq<Card>, waste: seq<Card>, stacks: seq<seq<Card>>, tables: seq<seq<Card>>): nat {
    |stock| + |waste| + SumLengths(tables) + SumLengths(stacks)
  }

  /** The test of checkForWin: four stacks each hold a quarter of the cards, rounded down. */
  predicate WinOf(stock: seq<Card>, waste: seq<Card>, stacks: seq<seq<Card>>, tables: seq<seq<Card>>) {
    CountComplete(stacks, DeckSize(stock, waste, stacks, tables) / 4) == 4
  }

  /** With four stacks, the game is won exactly when every stack holds a quarter of the cards. */
  lemma WinRule(stock: seq<Card>, waste: seq<Card>, stacks: seq<seq<Card>>, tables: seq<seq<Card>>)
    requires |stacks| == 4
    ensures WinOf(stock, waste, stacks, tables) <==>
            forall k :: 0 <= k < 4 ==> |stacks[k]| == DeckSize(stock, waste, stacks, tables) / 4
  {
    CountCompleteAll(stacks, DeckSize(stock, waste, stacks, tables) / 4);
  }

  /** With a full deck of 52 cards, the game is won exactly when every stack holds 13. */
  lemma FullDeckWin(stock: seq<Card>, waste: seq<Card>, stacks: seq<seq<Card>>, tables: seq<seq<Card>>)
    requires |stacks| == 4 && DeckSize(stock, waste, stacks, tables) == 52
    ensures WinOf(stock, waste, stacks, tables) <==> forall k :: 0 <= k < 4 ==> |stacks[k]| == 13
  {
    WinRule(stock, waste, stacks, tables);
  }

  /** As written, a game without any cards counts as won. */
  lemma EmptyGameIsWon(stacks: seq<seq<Card>>, tables: seq<seq<Card>>)
    requires |stacks| == 4
    requires forall k :: 0 <= k < 4 ==> stacks[k] == []
    requires forall k :: 0 <= k < |tables| ==> tables[k] == []
    ensures WinOf([], [], stacks, tables)
  {
    CountCompleteAll(stacks, 0);
    EmptyLengths(stacks);
    EmptyLengths(tables);
  }

  lemma {:induction false} EmptyLengths(cs: seq<seq<Card>>)
    requires forall k :: 0 <= k < |cs| ==> cs[k] == []
    ensures SumLengths(cs) == 0
  {
    if |cs| > 0 {
      EmptyLengths(cs[1..]);
    }
  }

  /** The test draw-stock, draw-waste and draw-table apply: the card is found
      (indexOf is not -1) and it is the last card of its pile. */
  predicate IsTopCard(cards: seq<Card>, card: Card) {
    var i := IndexOf(cards, card);
    i != -1 && i == |cards| - 1
  }

  /** The card is the top card exactly when the pile ends with it and holds it nowhere else. */
  lemma IsTopCardRule(cards: seq<Card>, card: Card)
    ensures IsTopCard(cards, card) <==>
            |cards| > 0 && cards[|cards| - 1] == card && card !in cards[..|cards| - 1]
  {
    if |cards| > 0 && cards[|cards| - 1] == card && card !in cards[..|cards| - 1] {
      assert card in cards;
    }
  }

  /** The top card, taken off with splice(index, 1), leaves the rest of the pile. */
  lemma TakeTop(cards: seq<Card>, card: Card)
    requires IsTopCard(cards, card)
    ensures cards[..|cards| - 1] + cards[|cards|..] == cards[..|cards| - 1]
    ensures cards == cards[..|cards| - 1] + [card]
  {
  }

  /** Moving cards between two of the sequences keeps the multiset of all cards
      when the two sequences together hold the same cards as before. */
  lemma MoveConserves(xs: seq<seq<Card>>, i: int, j: int, a: seq<Card>, b: seq<Card>)
    requires 0 <= i < |xs| && 0 <= j < |xs| && i != j
    requires multiset(a) + multiset(b) == multiset(xs[i]) + multiset(xs[j])
    ensures multiset(Flatten(xs[i := a][j := b])) == multiset(Flatten(xs))
  {
    var ys := xs[i := a];
    var zs := ys[j := b];
    FlattenUpdate(xs, i, a);
    FlattenUpdate(ys, j, b);
    assert ys[j] == xs[j];
    ExchangeCancels(multiset(Flatten(xs)), multiset(Flatten(ys)), multiset(Flatten(zs)),
                    multiset(xs[i]), multiset(xs[j]), multiset(a), multiset(b));
  }

  /** Two exchanges that swap a pair of multisets for another pair of the
      same total leave the whole unchanged. */
  lemma ExchangeCancels(mx: multiset<Card>, my: multiset<Card>, mz: multiset<Card>,
                        ci: multiset<Card>, cj: multiset<Card>, a: multiset<Card>, b: multiset<Card>)
    requires my + ci == mx + a && mz + cj == my + b && a + b == ci + cj
    ensures mz == mx
  {
    calc {
      mz + (ci + cj);
      (mz + cj) + ci;
      (my + b) + ci;
      (my + ci) + b;
      (mx + a) + b;
      mx + (a + b);
      mx + (ci + cj);
    }
    MultisetCancel(mz, mx, ci + cj);
  }

  lemma MultisetCancel<T>(a: multiset<T>, b: multiset<T>, c: multiset<T>)
    requires a + c == b + c
    ensures a == b
  {
    assert a == a + c - c;
    assert b == b + c - c;
  }

  /** The cards left in the origin pile by drop-table's loop: removeElement
      applied for each carried card in order. */
  function RemoveEach(s: seq<Card>, xs: seq<Card>): seq<Card>
    decreases |xs|
  {
    if |xs| == 0 then s else RemoveElement(RemoveEach(s, xs[..|xs| - 1]), xs[|xs| - 1])
  }

  /** Carrying one more card removes it from what the earlier cards left. */
  lemma RemoveEachSnoc(s: seq<Card>, xs: seq<Card>, x: Card)
    ensures RemoveEach(s, xs + [x]) == RemoveElement(RemoveEach(s, xs), x)
  {
    assert (xs + [x])[..|xs|] == xs;
  }

  /** When the origin holds every carried card, exactly the carried cards leave it. */
  lemma {:induction false} RemoveEachMultiset(s: seq<Card>, xs: seq<Card>)
    requires multiset(xs) <= multiset(s)
    ensures multiset(RemoveEach(s, xs)) == multiset(s) - multiset(xs)
  {
    if |xs| > 0 {
      var init, x := xs[..|xs| - 1], xs[|xs| - 1];
      assert xs == init + [x];
      RemoveEachMultiset(s, init);
      var rest := RemoveEach(s, init);
      assert x in multiset(rest) by {
        assert multiset(init) + multiset{x} <= multiset(s);
      }
      assert x in rest;
    }
  }

  /** Carrying a pile's top cards off in order leaves the cards below them;
      here after the first m of them. */
  lemma {:induction false} RemoveEachPrefix(p: seq<Card>, xs: seq<Card>, m: int)
    requires 0 <= m <= |xs|
    requires forall k :: 0 <= k < |xs| ==> xs[k] !in p
    ensures RemoveEach(p + xs, xs[..m]) == p + xs[m..]
  {
    if m > 0 {
      RemoveEachPrefix(p, xs, m - 1);
      RemoveEachStep(p + xs, xs, m);
      RemoveFirstCarried(p, xs, m - 1);
    }
  }

  /** The first m carried cards are the first m - 1 and then one more. */
  lemma RemoveEachStep(s: seq<Card>, xs: seq<Card>, m: int)
    requires 0 < m <= |xs|
    ensures RemoveEach(s, xs[..m]) == RemoveElement(RemoveEach(s, xs[..m - 1]), xs[m - 1])
  {
    assert xs[..m] == xs[..m - 1] + [xs[m - 1]];
    RemoveEachSnoc(s, xs[..m - 1], xs[m - 1]);
  }

  /** Removing the lowest carried card, which the cards below do not hold,
      leaves the cards below and the carried cards above it. */
  lemma RemoveFirstCarried(p: seq<Card>, xs: seq<Card>, j: int)
    requires 0 <= j < |xs| && xs[j] !in p
    ensures RemoveElement(p + xs[j..], xs[j]) == p + xs[j + 1..]
  {
    var rest := p + xs[j..];
    SplitAround(p, xs, j);
    assert rest[|p|] == xs[j];
    IndexOfAt(rest, xs[j], |p|);
  }

  /** The cards on either side of position |p| of p + xs[j..]. */
  lemma SplitAround(p: seq<Card>, xs: seq<Card>, j: int)
    requires 0 <= j < |xs|
    ensures var rest := p + xs[j..]; rest[..|p|] == p && rest[|p| + 1..] == xs[j + 1..]
  {
    var rest := p + xs[j..];
    assert rest[|p|..] == xs[j..];
    assert rest[|p| + 1..] == rest[|p|..][1..];
  }

  /** Carrying a whole suffix of a pile off leaves the cards below it. */
  lemma RemoveEachSuffix(p: seq<Card>, xs: seq<Card>)
    requires forall k :: 0 <= k < |xs| ==> xs[k] !in p
    ensures RemoveEach(p + xs, xs) == p
  {
    RemoveEachPrefix(p, xs, |xs|);
    assert xs[..|xs|] == xs;
  }
}
