# Crazy Eights rules engine, modelled in Dafny

This project models the `Game` class of a two-seat Crazy-Eights server. It covers:

- seating two players;
- building the 52-card deck suit by suit and shuffling it with the swap loop;
- dealing seven cards to each seat, and the opening-card scan that skips Eights, Twos, Jacks and Kings;
- playing a card;
- drawing, which recycles the pile into the deck when the deck is empty;
- passing;
- the per-player view.

The model keeps the program's own shape. `CrazyEights.Game` is a class whose fields are the source's fields:

- `players` and `deck` are `seq`s;
- `hands` is a `map` from player id to hand;
- `currentTurn` and `suiteChanged` are `Option`s;
- `status` is one of `Waiting | Playing | Finished`.

Every method that changes the game changes those fields under a `modifies` clause. Each method states the whole new state in terms of the old one. The shuffle and deal loops, and the `do … while` opening-card scan, are `while` loops with their invariants.

The pieces of JavaScript whose edge cases matter live in `JsArray`: `findIndex`, which gives -1 for a missing element, and `splice(start, 1)`, which counts a negative start back from the end. The card types and the counting argument about the deck live in `Cards`.

Behaviour is modelled as the code has it, including these quirks:

- **Declared suit:** after an Eight has declared a suit, a card of the top card's suit is still accepted, as is one of the declared suit or of the top card's rank.
- **Card not in hand:** playing a card the player does not hold removes the hand's last card. `findIndex` gives -1 and `splice(-1, 1)` then takes the last element.
- **King:** the King branch has no `return`, so the common tail runs as well. The King goes on the pile twice and the removal runs twice. When the King is held once, the second removal drops the last remaining card, and the game ends up with one more King than it had (`KingDuplicatesKing`).
- **No guard after the end:** no operation refuses to run after the game has finished, and `start` can deal again.
- **Drawing:** `drawCard` has no turn check.
- **Pass result:** `pass` gives `undefined` (`None`) on success and `false` (`Some(false)`) when refused.

Randomness is a parameter. `Math.random()` inside the shuffle becomes a caller-supplied function `rand: nat -> nat`. At step `i` the loop swaps position `i` with position `rand(i) % (i + 1)`. Whatever `rand` is, the result is a permutation (`ShuffledPermutes`).

Card conservation is stated about values. `CardsIn(players, deck, hands, pile)` is the multiset of all cards on the table. The lemmas take the state a method's postcondition describes and show what happens to that multiset:

- `start` leaves every one of the 52 cards in exactly one place (`StartDealsEveryCard`).
- Playing a held non-King card keeps the same cards (`PlayKeepsCards`).
- A King held once gains a copy (`KingDuplicatesKing`).
- Drawing, with or without recycling, keeps the same cards (`DrawKeepsCards`).

One counting fact makes the opening scan safe: among the 38 cards left after dealing, positions 1 to 37 cannot all be special, because there are only 16 special cards. So the scan always stops inside the deck (`OpeningCardExists`, `ShuffledDeckHasOpeningCard`).

## Model

| member | source | states |
|---|---|---|
| JsArray.FindIndex | src/models/game.ts:84 | the result is -1 exactly when the card is absent; otherwise it is the first index holding the card |
| JsArray.FindIndexFrom | src/models/game.ts:84 | the scan from position k answers the first position at or after k holding the element, or -1 when none does |
| JsArray.SpliceStart | src/models/game.ts:85 | where `splice` starts: a start from 0 to the length is taken as is; a negative start counts back from the end, and one further back than the length is read as 0; a start past the end is read as the end |
| JsArray.SpliceOne | src/models/game.ts:85 | `splice(start, 1)`: the array is one shorter exactly when the start is below the length and the array is not empty; the elements before the position the start denotes stay, and those after it move down by one |
| JsArray.SpliceOneCases | src/models/game.ts:85 | in slices: a start from 0 below the length removes that element; -1 removes the last element; a start at or past the end, or an empty array, leaves the array unchanged |
| JsArray.SpliceOneAt | src/models/game.ts:85 | a start k inside the array removes position k and keeps the slices on both sides; the negative start k - length denotes the same position |
| JsArray.SpliceOneRemovesOne | src/models/game.ts:85 | removing a position inside the array takes exactly one copy of its element out of the array's multiset |
| JsArray.SpliceFarBackDropsFirst | src/models/game.ts:85 | a start further back than the length removes the first element |
| Cards.IsSpecial | src/models/game.ts:71 | the special ranks are the ones at positions 1, 7, 10 and 12 of the rank order: Two, Eight, Jack and King |
| Cards.StandardDeck | src/models/game.ts:44-50 | the deck as built: 52 cards, position i holding suit i / 13 and rank i % 13 |
| Cards.StandardDeckIsFull | src/models/game.ts:44-50 | the deck as built holds each of the 52 cards exactly once |
| Cards.StandardDeckHasEachCardOnce | src/models/game.ts:44-50 | any given card occurs exactly once in the deck as built |
| Cards.SpecialCardsAtMostSixteen | src/models/game.ts:71 | every card of rank Eight, Two, Jack or King lies in a set of at most 16 cards |
| Cards.DistinctWithin | src/models/game.ts:69-80 | pigeonhole: distinct cards drawn from a set are no more than the set's size |
| Cards.OpeningCardExists | src/models/game.ts:66-80 | however a full deck is ordered, after 14 cards are dealt some card from position 1 of the rest is not special |
| CrazyEights.RemoveCard | src/models/game.ts:84-85 | the hand after the findIndex/splice removal is one card shorter, or stays empty when it was empty |
| CrazyEights.RemoveCardDropsOne | src/models/game.ts:83-86 | removing a held card shortens the hand by one and removes exactly one copy of that card |
| CrazyEights.RemoveMissingDropsLast | src/models/game.ts:83-86 | removing a card that is not held drops the hand's last card, or leaves an empty hand empty |
| CrazyEights.RemoveCardTakesFirstCopy | src/models/game.ts:84-85 | the removed copy is the first one: the hand is split around the first index holding the card |
| CrazyEights.PlayMovesCard | src/models/game.ts:136-161 | playing a held card: hand plus pile keep the same multiset of cards |
| CrazyEights.KingRemovesTwoCards | src/models/game.ts:150-158 | with the King held once, the second removal drops the last remaining card, and the hand shrinks by two (to empty when it had fewer than two cards) |
| CrazyEights.KingLeavesNoCopy | src/models/game.ts:150-158 | after both removals no copy of a King held once remains in the hand |
| CrazyEights.KingPlayEmptiesTwoCardHand | src/models/game.ts:150-159 | a hand of a Seven and the King of hearts is emptied by playing the King |
| CrazyEights.PickIndex | src/models/game.ts:56 | the index picked at step i is at most i |
| CrazyEights.Swap | src/models/game.ts:57 | the two positions exchange their cards and every other position keeps its card |
| CrazyEights.SwapIsUpdate | src/models/game.ts:57 | the swap is the destructuring assignment's two writes, position i first and then position j |
| CrazyEights.SwapPermutes | src/models/game.ts:57 | one swap keeps the same multiset of cards |
| CrazyEights.ShuffleDown | src/models/game.ts:55-58 | the swap loop from position i down to 1 keeps the deck's length |
| CrazyEights.ShuffleDownStep | src/models/game.ts:55-58 | one turn of the loop: the swap at position i, then the loop from i - 1 |
| CrazyEights.ShuffleDownKeepsAbove | src/models/game.ts:55-58 | the loop started at position i leaves every position above i as it was |
| CrazyEights.ShuffleDownPermutes | src/models/game.ts:54-59 | the swap loop run from position i down to 1 is a permutation |
| CrazyEights.Shuffled | src/models/game.ts:54-59 | the shuffle keeps the deck's length |
| CrazyEights.ShuffledPermutes | src/models/game.ts:54-59 | for any random choices the shuffled deck is a permutation of the deck before it |
| CrazyEights.ShuffledDeckHasOpeningCard | src/models/game.ts:44-81 | the shuffled 52-card deck, after two hands of seven, always holds an opening card from position 1 on |
| CrazyEights.Dealt | src/models/game.ts:62-64 | dealing to the first k seats takes no id's hand away |
| CrazyEights.DealtGivesSevenEach | src/models/game.ts:62-64 | after dealing to the first k seats each of them holds seven cards, and the ids with a hand are the earlier ones plus those seats |
| CrazyEights.FindOther | src/models/game.ts:108 | whatever `players.find(id => id !== p)` finds is not p |
| CrazyEights.FindOtherFirst | src/models/game.ts:108 | `players.find(id => id !== p)` finds nothing exactly when every seat is p's, and otherwise finds the first seat that is not |
| CrazyEights.FirstPlainAt | src/models/game.ts:66-80 | a deck with a position where the opening-card scan stops has an opening card from position 1 on |
| CrazyEights.StartDealsEveryCard | src/models/game.ts:35-81 | the state `start` leaves, with two distinct seats, holds each of the 52 cards exactly once across deck, hands and pile |
| CrazyEights.MoveKeepsCards | src/models/game.ts:137-177 | a change to one hand, the deck and the pile that keeps their joint multiset keeps the cards of the whole game |
| CrazyEights.MoveChangesCount | src/models/game.ts:137-177 | replacing the deck, one hand and the pile changes the game's count of any card by exactly the change in those three |
| CrazyEights.PlayKeepsCards | src/models/game.ts:118-161 | an accepted play of a held non-King card keeps every card of the game |
| CrazyEights.KingDuplicatesKing | src/models/game.ts:150-158 | playing a King held once leaves the game with one more copy of that King |
| CrazyEights.LastCopyPushedTwice | src/models/game.ts:150-158 | when a card held once leaves the hand while two copies of it go on the pile, the game holds one more copy of that card than before, and both seats keep their hands |
| CrazyEights.Replenished | src/models/game.ts:165-172 | with an empty deck and a non-empty pile, the pile becomes its old top card alone and the deck gets the other cards; otherwise nothing changes |
| CrazyEights.DrawOneKeepsCards | src/models/game.ts:173-176 | moving the deck's first card into a seated player's hand keeps every card of the game |
| CrazyEights.ReplenishedKeepsCards | src/models/game.ts:165-172 | recycling the pile keeps the joint multiset of deck and pile |
| CrazyEights.DrawKeepsCards | src/models/game.ts:164-178 | drawing, with or without recycling, keeps every card of the game |
| CrazyEights.Game.constructor | src/models/game.ts:13-21 | a new game: no seats, empty deck, hands and pile, no turn, no declared suit, status waiting |
| CrazyEights.Game.GetPlayers | src/models/game.ts:23-25 | the seats, never more than two |
| CrazyEights.Game.AddPlayer | src/models/game.ts:27-33 | succeeds and appends the id exactly when fewer than two seats are taken; otherwise the seats are unchanged |
| CrazyEights.Game.GetOpponentId | src/models/game.ts:107-109 | the opponent is a seated id other than the player's, or the empty id; with two seats it is the other seat |
| CrazyEights.Game.Start | src/models/game.ts:35-42 | refuses and changes nothing unless exactly two seats are taken. Otherwise: status playing and the first seat's turn; hands of 7 taken from the shuffled deck; the first plain card from position 1 of the rest becomes the whole pile; 37 cards remain; the game is in play |
| CrazyEights.Game.InitializeDeck | src/models/game.ts:44-52 | the deck becomes the shuffled 52-card deck built suit by suit |
| CrazyEights.Game.ShuffleDeck | src/models/game.ts:54-59 | the swap loop leaves the shuffle of the old deck |
| CrazyEights.Game.DealCards | src/models/game.ts:61-81 | each seat in order gets the next seven cards, and the first plain card from position 1 becomes the pile |
| CrazyEights.Game.DealHands | src/models/game.ts:62-64 | `hands[p] = deck.splice(0, 7)` for each seat in order |
| CrazyEights.Game.TakeOpeningCard | src/models/game.ts:66-80 | the scan stops at the first position from 1 whose rank is not special; that card alone forms the pile and is removed from the deck |
| CrazyEights.Game.RemoveCardFromPlayersHand | src/models/game.ts:83-86 | only the player's hand changes, by the findIndex/splice removal |
| CrazyEights.Game.CheckIfPlayerHasWon | src/models/game.ts:88-94 | status becomes finished exactly when the player's hand is empty; otherwise it is unchanged |
| CrazyEights.Game.GetGameStateForPlayer | src/models/game.ts:96-105 | the view shows the player's own hand, the top card, whether it is their turn, the opponent's card count, the declared suit and the status |
| CrazyEights.ViewHidesOpponentHand | src/models/game.ts:96-105 | two games differing only in the contents of the opponent's hand give the same view |
| CrazyEights.Game.PlayCard | src/models/game.ts:111-162 | accepted exactly when the player holds the turn and the card is an Eight or matches the declared suit, the top suit or the top rank; a refusal changes nothing. An Eight sets the declared suit, any other accepted card clears it. Pile, hand, turn and status are stated per rank. A game in play stays in play |
| CrazyEights.Game.PlayAccepted | src/models/game.ts:133-161 | after acceptance: a Two or a Jack goes on the pile once and keeps the turn without a win check; a King goes on twice and is removed twice; anything else goes on once, passes the turn and runs the win check |
| CrazyEights.Game.PlayKing | src/models/game.ts:150-159 | the King is pushed and removed twice, the turn passes to the opponent, and the game finishes when the hand is left empty; a game in play stays in play |
| CrazyEights.Game.DiscardAndPassTurn | src/models/game.ts:156-159 | push, remove, hand the turn to the opponent, finish when the hand is empty |
| CrazyEights.Game.Discard | src/models/game.ts:137-138 | the card is appended to the pile and removed from the player's hand; nothing else changes |
| CrazyEights.Game.DrawCard | src/models/game.ts:164-178 | after any recycling, the deck's first card, if any, is returned and appended to the player's hand; with no card, None is returned and the hand is unchanged; turn and status are untouched |
| CrazyEights.Game.Pass | src/models/game.ts:180-186 | the player holding the turn hands it to the opponent and gets `undefined`; anyone else gets `false` and nothing changes |

## Left out

- The transport in `src/index.ts` (socket and HTTP handlers, the registry of games, broadcasting) is not part of this model: it is I/O with no rules in it.
- The tests in `src/models/game.spec.ts` are not part of this model. They build `Game` with five arguments and read a King draw-penalty counter. The modelled `game.ts` has neither, nor any "counter-King blocks the win" rule, so none of these is modelled.
- `src/types/game` is not part of this model. `Suit` and `Value` are assumed to be string-valued enums listing their members in the usual order (hearts, diamonds, clubs, spades; ace to king). Being string-valued, `Object.values` gives exactly their 4 and 13 members, and every declared suit is truthy in the `suiteChanged &&` test of `playCard`; a numeric enum would break both. The order fixes the unshuffled deck.
- `Math.random()` is replaced by the `rand` parameter; the floating-point multiply and floor are not modelled.
- The `console.error` call in the opening-card scan is a log line with no effect on state, and is not modelled.
- The scan reading past the end of the deck (no plain card from position 1) cannot happen after dealing from a full deck (`OpeningCardExists`). `TakeOpeningCard` therefore requires a plain card to exist.
- Calls by an id with no hand are excluded by preconditions (`playerId in hands`), including calls that would not throw and calls that change the game before throwing:
  - `getGameStateForPlayer`: the lookup of the player's own hand gives `undefined` without throwing; only the opponent's lookup throws. Both ids must have a hand.
  - `drawCard`: before `start` (empty deck and pile) an unseated id gets `undefined` and nothing changes. Once there is a card, the deck has already lost its first card, and the pile may already have been recycled, when `hands[playerId].push` throws. The transport's draw handler has no seat check, so a third client could make a card disappear this way; that path is not modelled.
  - `playCard`: the turn-holder's card is pushed onto the pile before the removal throws. This needs a turn-holder with no hand, which can happen when one id holds both seats and `getOpponentId` hands the turn to `''`.
- CrazyEights.Game.Start: it proves that the game is in play only when the two seats hold different ids. `addPlayer` does not check for duplicates, and with one id seated twice the two hands are one map entry.
- CrazyEights.Game.PlayCard: it does not state card conservation itself. `PlayKeepsCards` and `KingDuplicatesKing` state it about the hands and pile its postcondition gives.
- CrazyEights.Game.DrawCard: it does not state card conservation itself. `DrawKeepsCards` states it about the deck, pile and hand its postcondition gives.
- The game id is stored and not otherwise used.
- In the Eight branch the code sets the turn between the push and the removal, and the model sets it after both. Neither step reads the turn, so the final state is the same, and the branch reuses `DiscardAndPassTurn`.
