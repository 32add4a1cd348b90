# Klondike rules engine, in Dafny

This project models the rules engine of a browser Klondike solitaire game written in React and TypeScript, and proves properties of that model. It covers:

- the game reducer (`gameReducer`) with its legality rules and win check;
- the URL-safe base64 token that keeps a game in the address bar, together with the two effects that write and read it;
- the card and pile lookups and the drag-target search (`GameUtil`);
- the renderer's drag and click rules;
- the generic utilities (`Util`) and the elapsed-time formatter of the statistics panel.

The game state is a layout of thirteen piles:

- one stock;
- one waste;
- four foundation stacks, one per suit, in the order clubs, spades, hearts, diamonds;
- seven tables.

Cards, piles, the statistics and the state are classes, as in the source. Cards are told apart by identity, and the reducer changes things in place:

- `pile.cards` is replaced;
- `card.side` is turned;
- `stats.points` and `stats.moves` are updated;
- the state object is a shallow copy that shares its piles and its statistics with the old one.

Each reducer case is a method. Its contract ties the new contents of the thirteen piles (`Contents(s.Piles())`) to a pure layout function of the old ones, for example `DrawStockLayout` or `DropTableLayout`. Its contract also gives the exact points, moves, card sides and status. Lemmas about the layout functions then prove what the game relies on:

- every move keeps every card of the deck;
- every move keeps the foundation stacks ordered (one suit each, built up from the Ace);
- a rejected move changes nothing;
- the win test holds exactly when each stack holds a quarter of the cards.

The token layer is modelled down to the bytes:

- `btoa` is modelled as the base64 encoding of section 4 of RFC 4648.
- `atob` is modelled as the forgiving base64 decode of the WHATWG infra standard, without its whitespace removal.
- The URL-safe alphabet and the stripping of padding follow section 5 of RFC 4648.

`UrlSafeDecode(Data2UrlSafe(b)) == Success(b)` is proved for every byte string `b`.

The type module of the game (suits, ranks, sides, piles and the state, together with `makeInitialState`) is not part of this model as a source file. `GameTypes` defines the types that the code uses, and a fresh initial state is passed to game-new and game-stop as a parameter.

The drag-target search (src/game/CardUtil.tsx:205-213) skips a card element of the dragged card's own pile only when that card's index in the pile is higher than the dragged card's index. The dragged card itself and the cards below it stay candidates. `FindClosestPileAndCard` and `VisitCard` model it that way.

As written, `checkForWin` declares a layout with no cards at all won, because a quarter of 0 is 0. `GameRules.EmptyGameIsWon` states this. A real deal always holds 52 cards, so the model keeps the code's test unchanged.

## Model

| member | source | states |
|---|---|---|
| GameRules.SuitToIndex | src/game/Game.tsx:11-18 | every suit has a foundation index in 0..3 |
| GameRules.SuitToIndexInjective | src/game/Game.tsx:11-18 | two suits share a foundation index exactly when they are the same suit, so each stack holds one suit |
| GameRules.RankToIndex | src/game/Game.tsx:21-24 | the rank index lies in -1..12 |
| GameRules.RankToIndexIsNumber | src/game/Game.tsx:21-24 | the rank index of every rank is its position counted from the Ace (never -1), checked against an independently listed numbering |
| GameRules.RankIndexSuccessor | src/game/Game.tsx:21-24 | one rank's index is another's plus one exactly when the second is the next rank of the first |
| GameRules.NextRankNumber | src/game/Game.tsx:21-24 | every rank but the King has a next rank, which is one position higher |
| GameRules.StackMoveAllowed | src/game/Game.tsx:26-42 | defined as an Ace on an empty stack, else same suit and rank index one above the top; its contract: an empty stack takes exactly an Ace, an accepted card has the top card's suit; stated in full by StackMoveRule |
| GameRules.StackMoveRule | src/game/Game.tsx:26-42 | an empty stack accepts exactly an Ace; any other stack accepts exactly the next rank in the suit of its top card |
| GameRules.StackPushRank | src/game/Game.tsx:26-42 | a card a stack accepts is an Ace on an empty stack, else one rank above the top card and of its suit |
| GameRules.FoundationPush | src/game/Game.tsx:26-42 | putting an accepted card onto its suit's stack keeps all four foundations ordered |
| GameRules.FoundationAppend | src/game/Game.tsx:26-42 | a card of stack k's suit whose rank number is that stack's length keeps the foundations ordered |
| GameRules.TableMoveAllowed | src/game/Game.tsx:44-58 | defined as any card on an empty table, else the other colour and rank index one below the top; its contract: an empty table takes any card, an accepted card has the other colour; stated in full by TableMoveRule |
| GameRules.TableMoveRule | src/game/Game.tsx:44-58 | an empty table accepts any card; any other table accepts exactly a card of the other colour one rank below its top card |
| GameRules.TableauDrop | src/game/Game.tsx:44-58 | dropping an alternating run onto a table whose top accepts its first card gives an alternating run |
| GameRules.SumLengthsFlatten | src/game/Game.tsx:62-64 | the summed pile lengths count every card of the piles |
| GameRules.CountCompleteAll | src/game/Game.tsx:65-69 | the count of complete stacks is at most the number of stacks, and equals it exactly when every stack is complete |
| GameRules.WinRule | src/game/Game.tsx:60-72 | with four stacks, the game is won exactly when every stack holds a quarter of all cards, rounded down |
| GameRules.FullDeckWin | src/game/Game.tsx:60-72 | with 52 cards, the game is won exactly when every stack holds 13 cards |
| GameRules.EmptyGameIsWon | src/game/Game.tsx:60-72 | a layout with no cards passes the win test |
| GameRules.EmptyLengths | src/game/Game.tsx:62-64 | empty piles add nothing to the deck size |
| GameRules.IsTopCardRule | src/game/Game.tsx:123-125 | the test `findIndex == length - 1` holds exactly when the pile ends with the card and holds it nowhere below |
| GameRules.TakeTop | src/game/Game.tsx:125-126 | splicing the top card out leaves the pile below it, and the pile is that plus the card |
| GameRules.MoveConserves | src/game/Game.tsx:121-214 | exchanging the contents of two piles for contents with the same cards keeps the deck's multiset of cards |
| GameRules.ExchangeCancels | src/game/Game.tsx:202-209 | two successive exchanges whose net change is zero leave the multiset as it was |
| GameRules.MultisetCancel | src/game/Game.tsx:121-214 | a common part cancels out of equal multiset sums |
| GameRules.RemoveEachSnoc | src/game/Game.tsx:202-204 | removing one more carried card removes its first occurrence from what the earlier removals left |
| GameRules.RemoveEachMultiset | src/game/Game.tsx:202-204 | removing carried cards that the pile holds takes away exactly those cards as a multiset |
| GameRules.RemoveEachStep | src/game/Game.tsx:202-204 | removing the first m carried cards is removing the first m-1 and then the m-th |
| GameRules.RemoveFirstCarried | src/game/Game.tsx:204 | removing a carried card that occurs nowhere below the carried run takes it off the front of that run |
| GameRules.RemoveEachPrefix | src/game/Game.tsx:202-209 | after m passes of the loop, a pile whose top is the carried run keeps its cards below the run and the rest of the run |
| GameRules.RemoveEachSuffix | src/game/Game.tsx:202-209 | removing a carried run from the top of a pile leaves exactly the cards below it |
| GameRules.SplitAround | src/game/Game.tsx:204 | the pile below the run and the rest of the run can be read back from their concatenation |
| GameReducer.MoveTop | src/game/Game.tsx:125-128 | moving the top card of one pile onto another keeps every card of the deck |
| GameReducer.MoveTopSlots | src/game/Game.tsx:125-128 | the origin loses its top card, the destination gains it on top, and every other pile is unchanged |
| GameReducer.CountCompleteStacks | src/game/Game.tsx:65-69 | the loop counts the stacks of the given size |
| GameReducer.AllStacksComplete | src/game/Game.tsx:61-70 | the comparison `completeStacks == 4` is the win test over the current layout |
| GameReducer.MarkWon | src/game/Game.tsx:70-72 | the status becomes won exactly when the layout wins, and no pile changes |
| GameReducer.SetWon | src/game/Game.tsx:70-72 | the status becomes won when asked to, and stays otherwise |
| GameReducer.CheckForWin | src/game/Game.tsx:60-76 | the status is won exactly when the layout wins (unchanged otherwise), moves rise by one exactly when the move counts, and no pile changes |
| GameReducer.CountMove | src/game/Game.tsx:73-75 | moves rise by one exactly when the move counts |
| GameReducer.SetCards | src/game/Game.tsx:137-140 | replacing one pile's cards changes that pile and no other |
| GameReducer.DrawStockLayout | src/game/Game.tsx:121-133 | the draw-stock layout has thirteen piles and keeps every card of the deck |
| GameReducer.MoveStockTop | src/game/Game.tsx:123-130 | the card moves from stock to waste and turns face up exactly when it is the stock's top card; otherwise no pile and no side changes |
| GameReducer.ReduceDrawStock | src/game/Game.tsx:121-133 | draw-stock's piles, card side, win status and move count, the move counted exactly when the card was on top |
| GameReducer.EmptyStockConserves | src/game/Game.tsx:134-145 | turning the waste over into the stock keeps every card of the deck |
| GameReducer.TurnToBack | src/game/Game.tsx:139 | every card of the pile lies face down afterwards |
| GameReducer.AddPoints | src/game/Game.tsx:141 | the points change by exactly the given amount |
| GameReducer.RefillStock | src/game/Game.tsx:137-140 | with the stock empty, the stock becomes the old waste reversed and face down, and the waste empties |
| GameReducer.TurnWasteOver | src/game/Game.tsx:136-142 | with an empty stock, the waste turns over face down into the stock and points drop by 15; with a non-empty stock nothing changes |
| GameReducer.ReduceEmptyStock | src/game/Game.tsx:134-145 | empty-stock's piles, sides, points and win status, and one move counted in every case |
| GameReducer.DrawWasteLayout | src/game/Game.tsx:146-163 | the draw-waste layout has thirteen piles and keeps every card of the deck |
| GameReducer.MoveOntoStack | src/game/Game.tsx:152-159 | a top card moves onto its suit's stack exactly when that stack accepts it, never from that stack itself |
| GameReducer.StackRefusesOwnTop | src/game/Game.tsx:176-185 | a stack never accepts its own top card, so draw-table never moves a card onto the stack it is on |
| GameReducer.MoveWasteTop | src/game/Game.tsx:148-160 | the waste's top card goes onto its suit's stack for 10 points exactly when that stack accepts it; otherwise nothing changes |
| GameReducer.ReduceDrawWaste | src/game/Game.tsx:146-163 | draw-waste's piles, points, win status and move count, the move counted exactly when the card moved |
| GameReducer.DrawTableLayout | src/game/Game.tsx:165-191 | the draw-table layout has thirteen piles and keeps every card of the deck |
| GameReducer.FindHoldingSlot | src/game/Game.tsx:167 | findPileForCard gives the first pile holding the card, or none |
| GameReducer.FindTopSlot | src/game/Game.tsx:167-171 | the card's pile is found exactly when the card is the top card of the first pile holding it |
| GameReducer.TakeFromPile | src/game/Game.tsx:167-188 | a face-down top card clicked on its back turns face up for 10 points; a top card clicked on its front moves to its suit's stack, without points, when that stack accepts it; nothing else changes |
| GameReducer.TurnUp | src/game/Game.tsx:172-175 | the card lies face up and the points rise by 10 |
| GameReducer.ReduceDrawTable | src/game/Game.tsx:165-191 | draw-table's piles, card side, points, win status and move count, the move counted exactly when the card turned or moved |
| GameReducer.DropStep | src/game/Game.tsx:202-209 | one more pass of the loop removes the next carried card from the origin and pushes it onto the table |
| GameReducer.UpdateTwice | src/game/Game.tsx:202-209 | two updates of the same two piles overwrite each other |
| GameReducer.MoveOneCard | src/game/Game.tsx:203-205 | the card's first occurrence leaves the origin and the card is pushed onto the table; no other pile changes |
| GameReducer.MoveAndCharge | src/game/Game.tsx:203-208 | one pass of the loop: the card moves and 5 points are taken when the origin is a stack |
| GameReducer.MoveCards | src/game/Game.tsx:202-209 | the loop removes each carried card from the origin, appends them to the table in order, and takes 5 points per card off a stack |
| GameReducer.DropTarget | src/game/Game.tsx:196-200 | the move is allowed exactly when there are cards, a pile holds the first of them, that pile is not the target, and the table accepts the first card |
| GameReducer.DropOnTable | src/game/Game.tsx:196-211 | the cards move exactly when drop-table allows them, with the penalty drop-table defines |
| GameReducer.TakeRun | src/game/Game.tsx:202-209 | the origin loses the carried cards and the table gains them in order, and points drop by 5 per card when the origin is a stack |
| GameReducer.DropTableLayout | src/game/Game.tsx:193-214 | defined as: when the drop moves, the pile holding the first card loses the cards and the table gains them in order, otherwise the layout is unchanged; its contract: the pile count is kept; stated by GameInvariants.DropTableFromTop, DropTableConserves and DropTableKeepsFoundations |
| GameReducer.ReduceDropTable | src/game/Game.tsx:193-214 | drop-table's piles, points, win status and move count, the move counted exactly when the cards moved |
| GameReducer.CopyState | src/game/Game.tsx:101 | `{ ...state }` is a new state object over the same piles, statistics and status |
| GameReducer.ReduceMove | src/game/Game.tsx:121-214 | each move action gives a fresh state over the same piles and statistics, with the action's layout, points, move count, card sides and win status |
| GameReducer.ReduceStockMove | src/game/Game.tsx:121-145 | draw-stock and empty-stock on a fresh copy: the layout, the drawn card turned to its front exactly when it was on top, the waste turned face down when the stock was empty, 15 points lost for that, and the move count |
| GameReducer.ReduceDraw | src/game/Game.tsx:146-191 | draw-waste and draw-table on a fresh copy: the layout, 10 points and a move when the card moved or turned, the turned card's front side, and the win status |
| GameReducer.ReduceDrop | src/game/Game.tsx:193-214 | drop-table on a fresh copy: the layout, the foundation penalty, a move exactly when the cards moved, and the win status |
| GameReducer.ReduceLifecycle | src/game/Game.tsx:95-120 | game-new and game-stop give the initial state launching or stopped; game-launched gives a running copy; game-reset gives a running state over the fragment's piles and statistics |
| GameReducer.Reduce | src/game/Game.tsx:92-218 | gameReducer: the lifecycle actions as above, and every move action over the same piles and statistics with the win status of its new layout |
| GameReducer.SetStatus | src/game/Game.tsx:97 | the status becomes the given one |
| GameInvariants.DrawStockFrame | src/game/Game.tsx:121-133 | draw-stock leaves every foundation and table as it was |
| GameInvariants.EmptyStockFrame | src/game/Game.tsx:134-145 | empty-stock leaves every foundation and table as it was, and keeps the deck |
| GameInvariants.MoveTopElsewhere | src/game/Game.tsx:125-128 | a move between stock and waste leaves the foundations and tables unchanged |
| GameInvariants.MoveOntoFoundation | src/game/Game.tsx:152-158 | moving an accepted top card onto its suit's stack keeps the foundations ordered |
| GameInvariants.MoveTopFoundations | src/game/Game.tsx:156-157 | such a move changes only that suit's stack among the foundations, by the moved card |
| GameInvariants.DrawWasteKeepsFoundations | src/game/Game.tsx:146-163 | draw-waste keeps the foundations ordered |
| GameInvariants.OnItsOwnStack | src/game/Game.tsx:11-18 | on ordered foundations a card lies on its own suit's stack |
| GameInvariants.DrawTableKeepsFoundations | src/game/Game.tsx:165-191 | draw-table keeps the foundations ordered |
| GameInvariants.FoundationTruncate | src/game/Game.tsx:202-209 | cutting a foundation back to a prefix keeps the foundations ordered |
| GameInvariants.DropTableFromTop | src/game/Game.tsx:193-214 | carrying the top run of a pile leaves the cards below it in the origin and appends the run to the table |
| GameInvariants.DropTableKeepsFoundations | src/game/Game.tsx:193-214 | drop-table of a pile's top run onto a table keeps the foundations ordered |
| GameInvariants.DropTableConserves | src/game/Game.tsx:193-214 | drop-table keeps every card of the deck when the origin holds all the carried cards |
| GameInvariants.FromTopHeld | src/game/Game.tsx:202-209 | a pile's top run is held in the pile |
| Codec.CharOf | src/game/Game.tsx:232 | no base64 character is '=', '-' or '_' |
| Codec.ValueOf | src/game/Game.tsx:243 | a decoded character stands for a six-bit value |
| Codec.ValueOfCharOf | src/game/Game.tsx:232-243 | each six-bit value's character decodes back to it |
| Codec.Sextets | src/game/Game.tsx:232 | a group of three bytes gives four six-bit values |
| Codec.Quad | src/game/Game.tsx:232 | each group encodes to four characters of the alphabet |
| Codec.BodyLengthMod | src/game/Game.tsx:232 | the unpadded output has four characters per full group and one more than the bytes of a final partial group |
| Codec.EncodeBody | src/game/Game.tsx:232 | the unpadded encoding has that length and stays in the alphabet |
| Codec.Encode | src/game/Game.tsx:232 | `btoa`'s output length is a multiple of four |
| Codec.Padding | src/game/Game.tsx:232 | the padding is all '=' |
| Codec.Triple | src/game/Game.tsx:243 | four characters decode to three bytes |
| Codec.DropFinalPadding | src/game/Game.tsx:243 | at most two characters, from the end, are dropped before decoding |
| Codec.QuadDecodes | src/game/Game.tsx:232-243 | each group's characters lie in the alphabet |
| Codec.TripleSextets | src/game/Game.tsx:232-243 | decoding a group's six-bit values gives back its bytes, also for final groups of one and two bytes |
| Codec.DecodeEncodeBody | src/game/Game.tsx:232-243 | decoding the unpadded encoding gives back the bytes |
| Codec.DecodeGroup | src/game/Game.tsx:243 | decoding runs group by group |
| Codec.DecodeFinalGroup | src/game/Game.tsx:243 | a final group of two or three characters decodes to one or two bytes |
| Codec.Atob | src/game/Game.tsx:243 | defined as the forgiving-base64 decode without whitespace removal; its contract: the only failure is InvalidCharacterError, and success means the unpadded input is in the alphabet; stated by AtobEncode |
| Codec.AtobEncode | src/game/Game.tsx:232-243 | `atob(btoa(b)) == b` for every byte string |
| Codec.EncodePaddingDropped | src/game/Game.tsx:232-243 | the decoder drops exactly the padding the encoder added |
| Codec.DropPaddingOf | src/game/Game.tsx:243 | a body followed by one or two '=' loses exactly the '=' |
| Codec.ToUrlAlphabet | src/game/Game.tsx:233 | the URL form holds no '+' and no '/' |
| Codec.FromUrlAlphabet | src/game/Game.tsx:239 | the translated-back string holds no '-' and no '_' |
| Codec.FromToUrlAlphabet | src/game/Game.tsx:233-239 | the two translations are inverse on strings without '-' and '_' |
| Codec.AlphabetHasNoUrlCharacters | src/game/Game.tsx:232-233 | base64 output never holds '-' or '_' |
| Codec.StripPadding | src/game/Game.tsx:233 | `/=+$/` removes exactly the trailing '=', leaving a prefix that does not end in '=' |
| Codec.Data2UrlSafe | src/game/Game.tsx:231-235 | defined as btoa, the URL-safe translation and the stripping of trailing '='; its contract: the token is a prefix of the translated btoa output; stated by UrlSafeCharacters, RoundTrip and Data2UrlSafeTestVector |
| Codec.UrlSafeCharacters | src/game/Game.tsx:231-235 | the token holds no '+', '/' or '=' |
| Codec.EncodeBodyNoPad | src/game/Game.tsx:231-235 | no character of the token is '=' |
| Codec.Equals | src/game/Game.tsx:240-242 | k padding characters |
| Codec.PadCount | src/game/Game.tsx:240-242 | the padding brings the length to a multiple of four with fewer than four characters |
| Codec.PadCountLeast | src/game/Game.tsx:240-242 | no shorter padding reaches a multiple of four, so the loop stops at the first one |
| Codec.Repad | src/game/Game.tsx:240-242 | the repadded string extends the input by '=' to the next multiple of four |
| Codec.UrlSafeDecode | src/game/Game.tsx:238-249 | defined as the translation back, re-padding and atob; its contract: the only failure is InvalidCharacterError; stated by RoundTrip, UrlSafeDecodeTestVector and UrlSafe2Data |
| Codec.UrlSafe2Data | src/game/Game.tsx:238-249 | urlsafe2data's loops translate back, pad and copy the decoded bytes, giving the decoding of the token |
| Codec.PadToQuantum | src/game/Game.tsx:240-242 | the padding loop gives the repadded string |
| Codec.ToUrlAlphabetPad | src/game/Game.tsx:233 | translation leaves padding alone |
| Codec.StripPaddingOf | src/game/Game.tsx:233 | stripping removes exactly the appended padding |
| Codec.StripToBody | src/game/Game.tsx:231-235 | the token is the unpadded encoding in the URL alphabet |
| Codec.RoundTrip | src/game/Game.tsx:231-249 | urlsafe2data(data2urlsafe(b)) == b for every byte string |
| Codec.TestVectorGroups | src/game/Game.tsx:232 | the groups of section 10 of RFC 4648's test vectors encode to their listed characters |
| Codec.EncodeTestVectorsShort | src/game/Game.tsx:232 | `btoa` gives "", "Zg==", "Zm8=", "Zm9v" for "", "f", "fo", "foo" (section 10 of RFC 4648) |
| Codec.EncodeTestVectorsLong | src/game/Game.tsx:232 | `btoa` gives "Zm9vYg==", "Zm9vYmE=", "Zm9vYmFy" for "foob", "fooba", "foobar" (section 10 of RFC 4648) |
| Codec.Data2UrlSafeTestVector | src/game/Game.tsx:231-236 | the bytes FB FF, "+/8=" in base64, give the token "-_8" |
| Codec.UrlSafeDecodeTestVector | src/game/Game.tsx:238-249 | the token "-_8" decodes to the bytes FB FF |
| Codec.RepadBody | src/game/Game.tsx:240-242 | repadding the unpadded encoding restores btoa's output |
| Codec.PaddingIsEquals | src/game/Game.tsx:240-242 | btoa's padding is the padding the loop adds back |
| Codec.PadCountOf | src/game/Game.tsx:240-242 | the padding for a length of remainder r is (4 - r) mod 4 |
| UrlSync.WriteEffect | src/game/Game.tsx:280-303 | while restoring nothing is written; a running game writes its token exactly when it differs from the previous one and records it; any other status clears the parameters |
| UrlSync.ReadEffect | src/game/Game.tsx:309-321 | nothing happens exactly when there is no foreign token (absent, empty or the current state's own); a foreign token makes the effect throw exactly when urlsafe2data throws, or when ungzip and JSON.parse reject its bytes, and it throws before the flag is raised; otherwise the flag is raised and the decoded bytes restore the game |
| UrlSync.TimerFires | src/game/Game.tsx:317-319 | the timer lowers the restoring flag and nothing else |
| UrlSync.WriteDeduplicates | src/game/Game.tsx:292-299 | an unchanged running game writes nothing the second time |
| UrlSync.WriteCausesNoRestore | src/game/Game.tsx:280-321 | a URL the write effect wrote never makes the read effect restore |
| UrlSync.RestoreSuppressesWrites | src/game/Game.tsx:280-321 | after a restore starts, the write effect does nothing until the timer fires |
| UrlSync.WritesResumeAfterTimer | src/game/Game.tsx:280-319 | after the timer, a running game writes exactly when its token differs from the last one written |
| UrlSync.WrittenTokenDecodes | src/game/Game.tsx:291-312 | a written token decodes back to the bytes of the external form it came from |
| UrlSync.ForeignTokenRestores | src/game/Game.tsx:309-321 | a foreign token whose bytes parse restores exactly the bytes it was made from |
| UrlSync.ForeignGarbageThrows | src/game/Game.tsx:312-316 | a well-formed foreign token whose bytes do not parse makes the effect throw before the flag is raised: no game-reset is dispatched and the kept state is unchanged when the error escapes |
| CardUtil.GetSuitColor | src/game/CardUtil.tsx:22-29 | hearts and diamonds are red, clubs and spades black |
| CardUtil.SuitInitialReadsBack | src/game/CardUtil.tsx:35-37 | the four suit initials are distinct |
| CardUtil.RankNameReadsBack | src/game/CardUtil.tsx:35-37 | the thirteen rank names are distinct |
| CardUtil.CardId | src/game/CardUtil.tsx:35-37 | defined as the suit's initial, '_' and the rank; its contract: the id starts with the suit's initial and '_'; stated by CardIdReadsBack and CardIdInjective |
| CardUtil.CardIdReadsBack | src/game/CardUtil.tsx:35-37 | a card id names its suit and rank |
| CardUtil.CardIdInjective | src/game/CardUtil.tsx:35-37 | two cards share an id exactly when they share suit and rank |
| CardUtil.PileId | src/game/CardUtil.tsx:88-90 | defined as the pile type, '_' and the index (-1 when absent); its contract: the id starts with the type name and '_'; stated by PileIdInjective and FindPileByIdOfPileId |
| CardUtil.PileIdInjective | src/game/CardUtil.tsx:88-90 | equal pile ids mean the same pile type and the same index, a missing index counting as -1 |
| CardUtil.HoldingIndex | src/game/CardUtil.tsx:115-136 | the first pile of the search order holding the card, or -1 exactly when none does |
| CardUtil.FindCardById | src/game/CardUtil.tsx:57-86 | defined as the first card with the id over stock, waste, stacks and tables; its contract: a found card is in the piles and has the id; stated in full by CardWithIdSpec and FindCardByIdOfCardId |
| CardUtil.CardWithIdSpec | src/game/CardUtil.tsx:57-86 | no card for a missing or empty id or when no card has it; otherwise a card with the id, the first in search order |
| CardUtil.FindPileById | src/game/CardUtil.tsx:92-113 | defined as the first pile with the id over stock, waste, stacks and tables; its contract: a found pile is one of the state's and has the id; stated in full by PileWithIdSpec and FindPileByIdOfPileId |
| CardUtil.PileWithIdSpec | src/game/CardUtil.tsx:92-113 | no pile for a missing or empty id or when no pile has it; otherwise the first pile with the id |
| CardUtil.FindPileForCard | src/game/CardUtil.tsx:115-136 | nothing when the state or card is missing or no pile holds it; otherwise the first pile of stock, waste, stacks, tables that holds it |
| CardUtil.FindPileByIdOfPileId | src/game/CardUtil.tsx:88-113 | in a valid state each pile is found from its own id |
| CardUtil.InCardsOf | src/game/CardUtil.tsx:57-86 | the searched cards are exactly the cards of the piles |
| CardUtil.FoundCardIsHeld | src/game/CardUtil.tsx:57-86 | a card found by id lies in some pile |
| CardUtil.FoundCardHasPile | src/game/CardUtil.tsx:201-205 | a card found by id always has a pile, so the card tier's `cardPile` is defined |
| CardUtil.FindCardByIdOfCardId | src/game/CardUtil.tsx:57-86 | every card of the game is found by its id, as a card of the same suit and rank |
| CardUtil.IntersectRect | src/game/CardUtil.tsx:138-144 | defined as the negated four-way separation test; its contract: the rectangles overlap on both axes, edges included; stated by IntersectMeansCommonPoint and TouchingIntersects |
| CardUtil.IntersectMeansCommonPoint | src/game/CardUtil.tsx:138-144 | well-formed rectangles intersect exactly when they share a point |
| CardUtil.IntersectSymmetric | src/game/CardUtil.tsx:138-144 | intersection is symmetric |
| CardUtil.IntersectReflexive | src/game/CardUtil.tsx:138-144 | a well-formed rectangle meets itself |
| CardUtil.TouchingIntersects | src/game/CardUtil.tsx:138-144 | rectangles sharing a piece of a vertical or a horizontal edge count as intersecting, and they are the only intersecting rectangles whose interiors are apart |
| CardUtil.DistanceSquared | src/game/CardUtil.tsx:146-154 | the squared centre distance is never negative |
| CardUtil.DistanceSymmetric | src/game/CardUtil.tsx:146-154 | the distance is symmetric |
| CardUtil.DistanceToSelf | src/game/CardUtil.tsx:146-154 | a rectangle is at distance 0 from itself |
| CardUtil.PileScanStep | src/game/CardUtil.tsx:161-179 | one pass of the pile loop keeps the nearest-so-far choice |
| CardUtil.FindClosestPile | src/game/CardUtil.tsx:156-181 | nothing exactly when no known pile meets the dragged rectangle; otherwise the nearest such pile, the first on ties |
| CardUtil.CardScanStep | src/game/CardUtil.tsx:188-223 | one pass of the card loop keeps the nearest-so-far choice among candidates |
| CardUtil.VisitCard | src/game/CardUtil.tsx:188-223 | the loop body: target, unknown cards and cards above the dragged one in its pile are skipped, and a strictly nearer intersecting card becomes the choice |
| CardUtil.FindClosestPileAndCard | src/game/CardUtil.tsx:183-228 | the nearest card candidate (first on ties) with its pile when one exists; only otherwise the pile tier's result |
| Util.IndexOf | src/components/Util.tsx:6 | -1 exactly when absent; otherwise the first position of the element |
| Util.IndexOfAt | src/components/Util.tsx:6 | a first occurrence is what indexOf finds |
| Util.FirstIndexSpec | src/game/CardUtil.tsx:62 | `find` gives the first element satisfying the test, or none |
| Util.NearestKeep | src/game/CardUtil.tsx:172-177 | a non-candidate, or a candidate that is not strictly nearer, leaves the nearest choice alone |
| Util.NearestNew | src/game/CardUtil.tsx:172-177 | a candidate strictly nearer than all before it becomes the nearest choice |
| Util.NearestUnique | src/game/CardUtil.tsx:172-177 | the nearest choice with first-wins ties is unique |
| Util.RemoveElement | src/components/Util.tsx:5-11 | an absent element leaves the array unchanged; otherwise its first occurrence is spliced out, the rest keeping its order and the length falling by one |
| Util.NatToStringParses | src/components/Util.tsx:14 | a number's decimal digits read back as the number |
| Util.IntToStringInjective | src/components/Util.tsx:14 | different numbers have different decimal strings |
| Util.ZeroPadNumber | src/components/Util.tsx:13-19 | the result has length max(size, digits) and is '0's followed by the number's digits |
| Util.Swap | src/components/Util.tsx:24 | the exchange swaps two positions, keeps the rest and is a permutation |
| Util.SwapIsArraySwap | src/components/Util.tsx:24 | an array that differs only by exchanging two positions is that swap |
| Util.SwapElements | src/components/Util.tsx:24 | the destructuring assignment swaps the two elements in place |
| Util.Shuffled | src/components/Util.tsx:21-26 | the shuffled sequence is a permutation, and arrays of length at most 1 are unchanged |
| Util.Shuffle | src/components/Util.tsx:21-26 | the loop shuffles the array in place by the given choices: a permutation of the old contents, unchanged when its length is at most 1 |
| Util.Reversed | src/game/Game.tsx:138 | the reversed array holds the elements in the opposite order |
| Util.ReversedMultiset | src/game/Game.tsx:138 | reversing keeps every element |
| StatsPanel.JsRem | src/game/StatsPanel.tsx:8-9 | JavaScript's `%` has the sign of the dividend and a magnitude below the divisor |
| StatsPanel.PadStart | src/game/StatsPanel.tsx:10 | `padStart` gives length max(n, length) with '0' before the original |
| StatsPanel.Hours | src/game/StatsPanel.tsx:7 | the hours are never negative for a non-negative time |
| StatsPanel.Minutes | src/game/StatsPanel.tsx:8 | the minutes lie in 0..59 for a non-negative time |
| StatsPanel.Seconds | src/game/StatsPanel.tsx:9 | the seconds lie in 0..59 for a non-negative time |
| StatsPanel.FormatElapsed | src/game/StatsPanel.tsx:6-11 | defined as hours, minutes and seconds, each padded to two digits, joined by ':'; its contract: for a non-negative time the display holds only digits and ':'; stated by FormatReadsBack and FormatLength |
| StatsPanel.ElapsedDecomposition | src/game/StatsPanel.tsx:7-9 | hours, minutes and seconds add up to the time, less than a second short |
| StatsPanel.LeadingZeroValue | src/game/StatsPanel.tsx:10 | a leading '0' does not change a field's value |
| StatsPanel.ZerosValue | src/game/StatsPanel.tsx:10 | leading '0's do not change a field's value |
| StatsPanel.FieldReadsBack | src/game/StatsPanel.tsx:10 | a field has at least two digits, exactly two below 100, and reads back as its number |
| StatsPanel.DisplaySplits | src/game/StatsPanel.tsx:10 | three fields joined by ':' can be read back apart |
| StatsPanel.FormatReadsBack | src/game/StatsPanel.tsx:6-11 | the display is hours, minutes and seconds fields joined by ':', reading back as those three numbers |
| StatsPanel.FormatLength | src/game/StatsPanel.tsx:10 | below 100 hours the display is exactly 8 characters long |
| GameRenderer.DraggedCardsShape | src/game/GameRenderer.tsx:58-75 | the carried cards start with the card; from a table they are the top of the table from the card up; otherwise they are the card alone |
| GameRenderer.ComputeAllDraggedCards | src/game/GameRenderer.tsx:58-75 | nothing for a missing card; otherwise the carried cards of the current layout |
| GameRenderer.DraggedFrom | src/game/GameRenderer.tsx:63-73 | from a table, the suffix of its cards from the card's index (none when absent); otherwise the card alone |
| GameRenderer.DraggedCardsAt | src/game/GameRenderer.tsx:63-73 | the carried cards, once the card's pile is known |
| GameRenderer.PushFrom | src/game/GameRenderer.tsx:67-69 | the push loop collects the cards from the index to the end |
| GameRenderer.CanStartDrag | src/game/GameRenderer.tsx:175-186 | defined as the three early returns of mouseDown; its contract: a drag never starts on a card outside the layout or on the stock; stated in full by DragGate |
| GameRenderer.DragGate | src/game/GameRenderer.tsx:175-186 | a drag starts exactly on a face-up table card or on the top card of the waste or a stack: never on the stock, below the top of another pile, or on a face-down table card |
| GameRenderer.DraggedFromTop | src/game/GameRenderer.tsx:175-191 | the cards a drag may carry are the top of their pile |
| GameRenderer.DragAndDropKeepsGame | src/game/GameRenderer.tsx:175-191 | dropping the carried cards onto a table keeps every card of the deck and keeps the foundations ordered |
| GameRenderer.MouseDown | src/game/GameRenderer.tsx:159-191 | a drag starts, carrying computeAllDraggedCards' cards, exactly when the gate allows it; otherwise the drag state is unchanged |
| GameRenderer.DragAllowed | src/game/GameRenderer.tsx:175-186 | the gate over the current layout and the card's own side |
| GameRenderer.Gate | src/game/GameRenderer.tsx:176-186 | the three early returns as one test over pile type, top position and side |
| GameRenderer.GateAt | src/game/GameRenderer.tsx:176-186 | the gate over the layout is that test over the card's slot |
| GameRenderer.PileOfCard | src/game/GameRenderer.tsx:175 | findPileForCard's pile and its type, or none |
| GameRenderer.EndDrag | src/game/GameRenderer.tsx:123-134 | drop-table is dispatched exactly when a card is dragged onto a table, and the drag state is always cleared |
| GameRenderer.TablePileIsTable | src/game/GameRenderer.tsx:126-127 | a pile of type table is one of the state's tables, as drop-table expects |
| GameRenderer.SlotKind | src/game/GameRenderer.tsx:176-186 | each slot's pile has the type its position says |
| GameRenderer.ClickAction | src/game/GameRenderer.tsx:147-158 | a stock card draws from the stock, the empty stock turns the waste over, a table card is drawn with its own side, a waste card is drawn from the waste, and a stack or an empty non-stock pile does nothing |

## Left out

- `stateToExternalForm` (JSON and gzip of the state) and the ungzip and parse of the read effect are foreign library calls. The token of the current state is a parameter of the effect model, and a restore hands back the decoded bytes rather than a parsed fragment.
- React plumbing is not modelled: the context, `useReducer`, `useState`, `setSearchParams`, the order in which effects run, and the timing of the timer. The effects are functions over the state they keep, and the timer is an explicit step (`UrlSync.TimerFires`).
- UrlSync.ReadEffect: a failed decode or parse is an outcome (`DecodeFailed`, `ParseFailed`) that records the state at the moment of the throw. The model does not follow the exception out of the effect. Nothing in the component or the app catches it, and React's reaction (the tree is unmounted when no error boundary catches it) is not modelled.
- Codec.UrlSafeDecode: `atob` is the forgiving base64 decode without its ASCII-whitespace removal, and only `InvalidCharacterError` is modelled as a failure. Whitespace cannot occur in a token that `data2urlsafe` made.
- GameReducer.Reduce: drop-table's target must be one of the state's tables (`requires action.table in state.tables`). The source only logs a failed `console.assert` for other targets and carries on.
- GameReducer.Reduce: `makeInitialState` and the deal are not part of this model. game-new and game-stop take the freshly made initial state as a parameter, and game-reset's new state is built from the fragment.
- GameReducer.Reduce: for the move actions, points, moves and card sides are stated by `ReduceMove` and the per-action methods. The top-level dispatcher restates only the piles, the sharing and the win status.
- `throw new Error()` for an unknown action type cannot happen, because `GameAction` is a closed datatype.
- GameInvariants.DropTableKeepsFoundations holds only when the carried cards are the top of their pile. GameRenderer.DraggedFromTop proves this for every drag that can start, provided the pile holds no card twice. The reducer alone accepts any list of cards.
- GameInvariants.DropTableConserves needs only that the origin pile holds every carried card (as a multiset). GameInvariants.FromTopHeld derives this from a top run.
- GameRenderer.DraggedFromTop and GameRenderer.DragAndDropKeepsGame assume that a pile holds no card twice. A real deal guarantees it, but the layout functions do not.
- Util.Shuffle: `Math.random` is replaced by a sequence of choices, one per position, with `0 <= choices[i] <= i`.
- Util.RemoveElement is a function over the array's contents. The in-place splice on a pile is GameReducer.MoveOneCard, which assigns the new contents to the pile.
- Util.ZeroPadNumber and StatsPanel.FormatElapsed take integers. Fractional JavaScript numbers and their string forms are not modelled. Neither are integers of magnitude 10^21 or more, which JavaScript prints in exponent form (`1e+21`): `Util.IntToString` writes all their digits, so `ZeroPadNumber` and `FormatElapsed` (from 10^21 hours on) differ from the source there.
- CardUtil.DistanceSquared: `Math.sqrt` is dropped and squared distances are compared, which gives the same order. Floating-point rounding is not modelled; coordinates are reals.
- CardUtil.FindClosestPileAndCard: the DOM is abstracted. `querySelectorAll`, `getBoundingClientRect` and `getAttribute` become a list of elements, each with a rectangle and an optional id, and `findCardElement`'s walk up the parents is not modelled. The sentinel `Number.MAX_VALUE` is modelled as "no distance yet".
- Pointer offset arithmetic in `mouseDown` and `mouseMove`, layout geometry, and all rendering and animation components are presentation and are not modelled. So are the display helpers `shortSuit`, `cardToString` and `cardToImage`.
