/** The rules engine of the two-seat Crazy-Eights game: seating, building and
    shuffling the deck, dealing, the opening card, playing, drawing and passing,
    and the view each player is sent. */
module CrazyEights {
  import opened Wrappers
  import opened Cards
  import opened JsArray

  datatype Status = Waiting | Playing | Finished

  /** What one player is shown: the opponent's hand appears only as a count. */
  datatype View = View(
    yourHand: seq<Card>,
    topCard: Option<Card>,
    isMyTurn: bool,
    opponentCardCount: nat,
    suiteChanged: Option<Suit>,
    status: Status)

  // ---------------------------------------------------------------------------
  // Removing a card from a hand: findIndex, then splice(index, 1)
  // ---------------------------------------------------------------------------

  /** The hand after `removeCardFromPlayersHand`. A held card loses its first copy; a
      card that is not held makes findIndex answer -1, and splice(-1, 1) then drops
      the hand's last card. */
  function RemoveCard(hand: seq<Card>, card: Card): (r: seq<Card>)
    ensures |r| == if |hand| == 0 then 0 else |hand| - 1
  {
    SpliceOne(hand, FindIndex(hand, card))
  }

  /** A card that is not held: the hand's last card goes instead, if there is one. */
  lemma RemoveMissingDropsLast(hand: seq<Card>, card: Card)
    requires card !in hand
    ensures RemoveCard(hand, card) == if hand == [] then [] else hand[..|hand| - 1]
  {
  }

  /** Removing a held card gives up exactly one copy of it and keeps every other card. */
  lemma RemoveCardDropsOne(hand: seq<Card>, card: Card)
    requires card in hand
    ensures |RemoveCard(hand, card)| == |hand| - 1
    ensures multiset(RemoveCard(hand, card)) == multiset(hand) - multiset{card}
  {
    SpliceOneRemovesOne(hand, FindIndex(hand, card));
  }

  /** It is the first copy of a held card that goes. */
  lemma RemoveCardTakesFirstCopy(hand: seq<Card>, card: Card)
    requires card in hand
    ensures exists i :: 0 <= i < |hand| && hand[i] == card && card !in hand[..i]
                        && RemoveCard(hand, card) == hand[..i] + hand[i + 1..]
  {
    var i := FindIndex(hand, card);
    SpliceOneCases(hand, i);
    assert card !in hand[..i] by {
      forall j | 0 <= j < i
        ensures hand[..i][j] != card
      {
      }
    }
  }

  /** Playing a held card moves exactly that card from the hand to the pile. */
  lemma PlayMovesCard(hand: seq<Card>, pile: seq<Card>, card: Card)
    requires card in hand
    ensures multiset(RemoveCard(hand, card)) + multiset(pile + [card]) == multiset(hand) + multiset(pile)
  {
    RemoveCardDropsOne(hand, card);
    assert multiset(pile + [card]) == multiset(pile) + multiset{card};
  }

  /** The King branch runs the removal twice. When the King is held once, the first
      removal takes the King and the second, finding no King, takes the last of the
      remaining cards; the pile gains two copies of the King. */
  lemma KingRemovesTwoCards(hand: seq<Card>, card: Card)
    requires multiset(hand)[card] == 1
    ensures var once := RemoveCard(hand, card);
            RemoveCard(once, card) == if once == [] then [] else once[..|once| - 1]
    ensures |RemoveCard(RemoveCard(hand, card), card)| == if |hand| >= 2 then |hand| - 2 else 0
  {
    var once := RemoveCard(hand, card);
    RemoveCardDropsOne(hand, card);
    assert multiset(once)[card] == 0;
    RemoveMissingDropsLast(once, card);
  }

  /** After the King branch's two removals no copy of a King held once is left in the hand. */
  lemma KingLeavesNoCopy(hand: seq<Card>, card: Card)
    requires multiset(hand)[card] == 1
    ensures card !in RemoveCard(RemoveCard(hand, card), card)
  {
    var once := RemoveCard(hand, card);
    RemoveCardDropsOne(hand, card);
    assert card !in once by {
      assert multiset(once)[card] == 0;
    }
    RemoveMissingDropsLast(once, card);
  }

  /** With a Seven and the King of hearts in hand, playing the King leaves the hand
      empty: the Seven is lost, and the win check then finishes the game. The test
      "Punishment to the opponent" in src/models/game.spec.ts:53-74 expects the Seven
      to stay in hand after this same play; that test was written against a different
      `Game` (five constructor arguments, a draw-penalty counter), and the code
      modelled here does not meet it. */
  lemma KingPlayEmptiesTwoCardHand()
    ensures RemoveCard(RemoveCard([Card(Hearts, Seven), Card(Hearts, King)], Card(Hearts, King)), Card(Hearts, King)) == []
  {
    var hand := [Card(Hearts, Seven), Card(Hearts, King)];
    assert FindIndex(hand, Card(Hearts, King)) == 1;
    assert RemoveCard(hand, Card(Hearts, King)) == [Card(Hearts, Seven)];
  }

  // ---------------------------------------------------------------------------
  // Shuffling: the swapping loop of shuffleDeck
  // ---------------------------------------------------------------------------

  /** The index that `Math.floor(Math.random() * (i + 1))` picks, taken from the
      caller's source of randomness `rand`. */
  function PickIndex(rand: nat -> nat, i: nat): (j: nat)
    ensures j <= i
  {
    rand(i) % (i + 1)
  }

  /** The destructuring swap `[d[i], d[j]] = [d[j], d[i]]`. */
  function Swap(s: seq<Card>, i: nat, j: nat): (r: seq<Card>)
    requires i < |s| && j < |s|
    ensures |r| == |s|
    ensures r[i] == s[j] && r[j] == s[i]
    ensures forall k :: 0 <= k < |s| && k != i && k != j ==> r[k] == s[k]
  {
    seq(|s|, k requires 0 <= k < |s| => if k == i then s[j] else if k == j then s[i] else s[k])
  }

  /** The swap is the two updates of the destructuring assignment, in its order. */
  lemma SwapIsUpdate(s: seq<Card>, i: nat, j: nat)
    requires i < |s| && j < |s|
    ensures Swap(s, i, j) == s[i := s[j]][j := s[i]]
  {
  }

  lemma SwapPermutes(s: seq<Card>, i: nat, j: nat)
    requires i < |s| && j < |s|
    ensures multiset(Swap(s, i, j)) == multiset(s)
  {
    SwapIsUpdate(s, i, j);
    if i != j {
      assert multiset(s[i := s[j]]) == multiset(s) - multiset{s[i]} + multiset{s[j]};
    }
  }

  /** The deck after the shuffle loop has run for positions i down to 1. */
  function ShuffleDown(s: seq<Card>, i: int, rand: nat -> nat): (r: seq<Card>)
    requires i < |s|
    ensures |r| == |s|
    decreases i
  {
    if i <= 0 then s
    else ShuffleDown(Swap(s, i, PickIndex(rand, i)), i - 1, rand)
  }

  /** One turn of the loop: swap at i, then carry on from i - 1. */
  lemma ShuffleDownStep(s: seq<Card>, i: int, rand: nat -> nat)
    requires 0 < i < |s|
    ensures ShuffleDown(s, i, rand) == ShuffleDown(Swap(s, i, PickIndex(rand, i)), i - 1, rand)
  {
  }

  /** Each step only swaps, so the shuffle loses and duplicates nothing. */
  lemma {:induction false} ShuffleDownPermutes(s: seq<Card>, i: int, rand: nat -> nat)
    requires i < |s|
    ensures multiset(ShuffleDown(s, i, rand)) == multiset(s)
    decreases i
  {
    if i > 0 {
      var j := PickIndex(rand, i);
      SwapPermutes(s, i, j);
      ShuffleDownPermutes(Swap(s, i, j), i - 1, rand);
    }
  }

  /** The loop only ever swaps position i with one at or below it, so the positions
      above the one it starts from keep their cards. */
  lemma {:induction false} ShuffleDownKeepsAbove(s: seq<Card>, i: int, rand: nat -> nat)
    requires i < |s|
    ensures forall k :: i < k < |s| && 0 <= k ==> ShuffleDown(s, i, rand)[k] == s[k]
    decreases i
  {
    if i > 0 {
      ShuffleDownKeepsAbove(Swap(s, i, PickIndex(rand, i)), i - 1, rand);
    }
  }

  /** The deck after `shuffleDeck`. */
  function Shuffled(s: seq<Card>, rand: nat -> nat): (r: seq<Card>)
    ensures |r| == |s|
  {
    ShuffleDown(s, |s| - 1, rand)
  }

  /** Whatever the random choices, the shuffled deck is a permutation of the deck before it. */
  lemma ShuffledPermutes(s: seq<Card>, rand: nat -> nat)
    ensures multiset(Shuffled(s, rand)) == multiset(s)
  {
    ShuffleDownPermutes(s, |s| - 1, rand);
  }

  /** A prefix one longer is the prefix followed by the next card. */
  lemma TakeOneMore(s: seq<Card>, n: nat)
    requires n < |s|
    ensures s[..n + 1] == s[..n] + [s[n]]
  {
  }

  /** However the deck is shuffled, once two hands of seven are dealt the opening-card
      scan finds a card. */
  lemma ShuffledDeckHasOpeningCard(rand: nat -> nat)
    ensures var x := Shuffled(StandardDeck(), rand);
            |x| == 52 && HasOpeningCard(x[14..])
  {
    ShuffledPermutes(StandardDeck(), rand);
    StandardDeckIsFull();
    OpeningCardExists(Shuffled(StandardDeck(), rand));
  }

  // ---------------------------------------------------------------------------
  // Dealing and seats
  // ---------------------------------------------------------------------------

  /** The hands after the first k players have each taken the next seven cards of d. */
  function Dealt(hands: map<string, seq<Card>>, players: seq<string>, d: seq<Card>, k: nat): (r: map<string, seq<Card>>)
    requires k <= |players| && 7 * k <= |d|
    ensures hands.Keys <= r.Keys
  {
    if k == 0 then hands
    else Dealt(hands, players, d, k - 1)[players[k - 1] := d[7 * (k - 1) .. 7 * k]]
  }

  /** After dealing to the first k seats every one of them holds seven cards, and the
      ids with a hand are the ones that had one plus those seats. */
  lemma {:induction false} DealtGivesSevenEach(hands: map<string, seq<Card>>, players: seq<string>, d: seq<Card>, k: nat)
    requires k <= |players| && 7 * k <= |d|
    ensures Dealt(hands, players, d, k).Keys == hands.Keys + set m | 0 <= m < k :: players[m]
    ensures forall m :: 0 <= m < k ==> |Dealt(hands, players, d, k)[players[m]]| == 7
  {
    if k > 0 {
      DealtGivesSevenEach(hands, players, d, k - 1);
      assert (set m | 0 <= m < k :: players[m]) == (set m | 0 <= m < k - 1 :: players[m]) + {players[k - 1]};
    }
  }

  /** `players.find(id => id !== p)`, scanning from seat k on: the first seat not held
      by p, if any. */
  function FindOther(players: seq<string>, p: string, k: nat): (r: Option<string>)
    requires k <= |players|
    ensures r.Some? ==> r.value != p
    decreases |players| - k
  {
    if k == |players| then None
    else if players[k] != p then Some(players[k])
    else FindOther(players, p, k + 1)
  }

  /** The search finds nothing exactly when every seat from k on is p's, and otherwise
      the first such seat that is not. */
  lemma {:induction false} FindOtherFirst(players: seq<string>, p: string, k: nat)
    requires k <= |players|
    ensures FindOther(players, p, k).None? <==> forall i :: k <= i < |players| ==> players[i] == p
    ensures FindOther(players, p, k).Some? ==>
              exists i :: k <= i < |players| && players[i] == FindOther(players, p, k).value && players[i] != p
                          && forall j :: k <= j < i ==> players[j] == p
    decreases |players| - k
  {
    if k < |players| {
      if players[k] == p {
        FindOtherFirst(players, p, k + 1);
        if FindOther(players, p, k + 1).Some? {
          var i :| k + 1 <= i < |players| && players[i] == FindOther(players, p, k + 1).value && players[i] != p
                   && forall j :: k + 1 <= j < i ==> players[j] == p;
          assert forall j :: k <= j < i ==> players[j] == p;
        }
      } else {
        assert players[k] == FindOther(players, p, k).value;
      }
    }
  }

  /** Position i is where the opening-card scan stops in deck d: the first position
      from 1 on whose card has no special rank. */
  ghost predicate FirstPlainAt(d: seq<Card>, i: nat)
    ensures FirstPlainAt(d, i) ==> HasOpeningCard(d)
  {
    1 <= i < |d| && !IsSpecial(d[i].value) && forall k :: 1 <= k < i ==> IsSpecial(d[k].value)
  }

  // ---------------------------------------------------------------------------
  // The table: what holds between the fields of a game
  // ---------------------------------------------------------------------------

  /** At most two seats; every hand belongs to a seated player; once someone holds the
      turn there is a card on the pile. */
  ghost predicate TableValid(players: seq<string>, hands: map<string, seq<Card>>, currentTurn: Option<string>, pile: seq<Card>) {
    |players| <= 2
    && (forall q :: q in hands ==> q in players)
    && (currentTurn.Some? ==> |pile| > 0)
  }

  /** Two different players are seated and both have a hand. */
  ghost predicate SeatedAt(players: seq<string>, hands: map<string, seq<Card>>) {
    |players| == 2 && players[0] != players[1] && players[0] in hands && players[1] in hands
  }

  /** Every card in a game with two seated players: the deck, both hands and the pile. */
  ghost function CardsIn(players: seq<string>, deck: seq<Card>, hands: map<string, seq<Card>>, pile: seq<Card>): multiset<Card>
    requires SeatedAt(players, hands)
  {
    multiset(deck) + multiset(hands[players[0]]) + multiset(hands[players[1]]) + multiset(pile)
  }

  /** After `start` the deck, both hands and the pile hold each of the 52 cards exactly
      once: with x the shuffled deck, the two hands are x[..7] and x[7..14], and the card
      at position i of the rest went to the pile. */
  lemma StartDealsEveryCard(players: seq<string>, hands: map<string, seq<Card>>, rand: nat -> nat, i: nat)
    requires |players| == 2 && players[0] != players[1]
    requires i < 38
    ensures var x := Shuffled(StandardDeck(), rand);
            var rest := x[14..];
            var dealt := hands[players[0] := x[..7]][players[1] := x[7..14]];
            SeatedAt(players, dealt)
            && IsFullDeck(CardsIn(players, rest[..i] + rest[i + 1..], dealt, [rest[i]]))
  {
    var x := Shuffled(StandardDeck(), rand);
    ShuffledPermutes(StandardDeck(), rand);
    StandardDeckIsFull();
    var rest := x[14..];
    var dealt := hands[players[0] := x[..7]][players[1] := x[7..14]];
    assert x == x[..7] + x[7..14] + rest[..i] + [rest[i]] + rest[i + 1..];
    assert CardsIn(players, rest[..i] + rest[i + 1..], dealt, [rest[i]]) == multiset(x);
  }

  /** Replacing a hand twice leaves only the second replacement. */
  lemma ReplaceTwice(hands: map<string, seq<Card>>, p: string, first: seq<Card>, second: seq<Card>)
    ensures hands[p := first][p := second] == hands[p := second]
  {
  }

  /** When only playerId's hand, the deck and the pile change, and those three together
      hold the same cards as before, the whole game holds the same cards as before. */
  lemma MoveKeepsCards(players: seq<string>, deck: seq<Card>, hands: map<string, seq<Card>>, pile: seq<Card>,
                       playerId: string, deck': seq<Card>, hand': seq<Card>, pile': seq<Card>)
    requires SeatedAt(players, hands) && playerId in players
    requires multiset(deck') + (multiset(hand') + multiset(pile')) == multiset(deck) + (multiset(hands[playerId]) + multiset(pile))
    ensures SeatedAt(players, hands[playerId := hand'])
    ensures CardsIn(players, deck', hands[playerId := hand'], pile') == CardsIn(players, deck, hands, pile)
  {
    var after := hands[playerId := hand'];
    var other := if playerId == players[0] then players[1] else players[0];
    assert after[other] == hands[other];
    forall c ensures CardsIn(players, deck', after, pile')[c] == CardsIn(players, deck, hands, pile)[c] {
      assert (multiset(deck') + (multiset(hand') + multiset(pile')))[c]
             == (multiset(deck) + (multiset(hands[playerId]) + multiset(pile)))[c];
    }
  }

  /** Replacing the deck, playerId's hand and the pile changes the count of a card c in
      the game by exactly the change in those three. */
  lemma MoveChangesCount(players: seq<string>, deck: seq<Card>, hands: map<string, seq<Card>>, pile: seq<Card>,
                         playerId: string, deck': seq<Card>, hand': seq<Card>, pile': seq<Card>, c: Card)
    requires SeatedAt(players, hands) && playerId in players
    ensures SeatedAt(players, hands[playerId := hand'])
    ensures CardsIn(players, deck', hands[playerId := hand'], pile')[c]
              + multiset(deck)[c] + multiset(hands[playerId])[c] + multiset(pile)[c]
            == CardsIn(players, deck, hands, pile)[c]
              + multiset(deck')[c] + multiset(hand')[c] + multiset(pile')[c]
  {
    var after := hands[playerId := hand'];
    var other := if playerId == players[0] then players[1] else players[0];
    assert after[other] == hands[other];
  }

  /** Playing a held card other than a King moves exactly that card from the hand to
      the top of the pile: the game holds the same cards as before. */
  lemma PlayKeepsCards(players: seq<string>, deck: seq<Card>, hands: map<string, seq<Card>>, pile: seq<Card>,
                       playerId: string, card: Card)
    requires SeatedAt(players, hands) && playerId in players && card in hands[playerId]
    ensures var after := hands[playerId := RemoveCard(hands[playerId], card)];
            SeatedAt(players, after) && CardsIn(players, deck, after, pile + [card]) == CardsIn(players, deck, hands, pile)
  {
    PlayMovesCard(hands[playerId], pile, card);
    MoveKeepsCards(players, deck, hands, pile, playerId, deck, RemoveCard(hands[playerId], card), pile + [card]);
  }

  /** The King branch breaks that: with the King held once, the pile gains two Kings
      while the hand gives up only one of them, so the game ends up with one King more. */
  lemma KingDuplicatesKing(players: seq<string>, deck: seq<Card>, hands: map<string, seq<Card>>, pile: seq<Card>,
                           playerId: string, card: Card)
    requires SeatedAt(players, hands) && playerId in players && multiset(hands[playerId])[card] == 1
    ensures var after := hands[playerId := RemoveCard(RemoveCard(hands[playerId], card), card)];
            SeatedAt(players, after)
            && CardsIn(players, deck, after, pile + [card] + [card])[card] == CardsIn(players, deck, hands, pile)[card] + 1
  {
    KingLeavesNoCopy(hands[playerId], card);
    LastCopyPushedTwice(players, deck, hands, pile, playerId, RemoveCard(RemoveCard(hands[playerId], card), card), card);
  }

  /** A card held once that leaves the hand entirely while two copies of it go on the
      pile gains one copy in the game. */
  lemma LastCopyPushedTwice(players: seq<string>, deck: seq<Card>, hands: map<string, seq<Card>>, pile: seq<Card>,
                            playerId: string, hand': seq<Card>, card: Card)
    requires SeatedAt(players, hands) && playerId in players && multiset(hands[playerId])[card] == 1 && card !in hand'
    ensures var after := hands[playerId := hand'];
            SeatedAt(players, after)
            && CardsIn(players, deck, after, pile + [card] + [card])[card] == CardsIn(players, deck, hands, pile)[card] + 1
  {
    assert multiset(pile + [card] + [card])[card] == multiset(pile)[card] + 2;
    MoveChangesCount(players, deck, hands, pile, playerId, deck, hand', pile + [card] + [card], card);
  }

  /** What the recycling step of `drawCard` leaves as deck and pile: when the deck is
      empty and the pile is not, the pile's top card stays and the rest of the pile
      becomes the new deck, shuffled. */
  function Replenished(deck: seq<Card>, pile: seq<Card>, rand: nat -> nat): (r: (seq<Card>, seq<Card>))
    ensures deck != [] || pile == [] ==> r == (deck, pile)
    ensures deck == [] && pile != [] ==> |r.0| == |pile| - 1 && r.1 == [pile[|pile| - 1]]
  {
    if deck == [] && pile != [] then (Shuffled(pile[..|pile| - 1], rand), [pile[|pile| - 1]])
    else (deck, pile)
  }

  /** Recycling loses and duplicates nothing. */
  lemma ReplenishedKeepsCards(deck: seq<Card>, pile: seq<Card>, rand: nat -> nat)
    ensures var (d, p) := Replenished(deck, pile, rand);
            multiset(d) + multiset(p) == multiset(deck) + multiset(pile)
  {
    if deck == [] && pile != [] {
      ShuffledPermutes(pile[..|pile| - 1], rand);
      assert pile == pile[..|pile| - 1] + [pile[|pile| - 1]];
    }
  }

  /** Drawing, after recycling, moves the new deck's first card into playerId's hand:
      the game holds the same cards as before. */
  lemma DrawKeepsCards(players: seq<string>, deck: seq<Card>, hands: map<string, seq<Card>>, pile: seq<Card>,
                       playerId: string, rand: nat -> nat)
    requires SeatedAt(players, hands) && playerId in players
    ensures var (d, p) := Replenished(deck, pile, rand);
            (d == [] ==> CardsIn(players, d, hands, p) == CardsIn(players, deck, hands, pile))
            && (d != [] ==> var after := hands[playerId := hands[playerId] + [d[0]]];
                           SeatedAt(players, after) && CardsIn(players, d[1..], after, p) == CardsIn(players, deck, hands, pile))
  {
    var (d, p) := Replenished(deck, pile, rand);
    ReplenishedKeepsCards(deck, pile, rand);
    var hand := hands[playerId];
    forall c ensures (multiset(d) + (multiset(hand) + multiset(p)))[c] == (multiset(deck) + (multiset(hand) + multiset(pile)))[c] {
      assert (multiset(d) + multiset(p))[c] == (multiset(deck) + multiset(pile))[c];
    }
    MoveKeepsCards(players, deck, hands, pile, playerId, d, hand, p);
    assert hands[playerId := hands[playerId]] == hands;
    if d != [] {
      DrawOneKeepsCards(players, d, hands, p, playerId);
    }
  }

  /** Moving the deck's first card into playerId's hand keeps the cards of the game. */
  lemma DrawOneKeepsCards(players: seq<string>, deck: seq<Card>, hands: map<string, seq<Card>>, pile: seq<Card>,
                          playerId: string)
    requires SeatedAt(players, hands) && playerId in players && deck != []
    ensures var after := hands[playerId := hands[playerId] + [deck[0]]];
            SeatedAt(players, after) && CardsIn(players, deck[1..], after, pile) == CardsIn(players, deck, hands, pile)
  {
    var hand := hands[playerId];
    var hand' := hand + [deck[0]];
    assert deck == [deck[0]] + deck[1..];
    assert multiset(deck) == multiset([deck[0]]) + multiset(deck[1..]);
    assert multiset(hand') == multiset(hand) + multiset([deck[0]]);
    MoveKeepsCards(players, deck, hands, pile, playerId, deck[1..], hand', pile);
  }

  class Game {
    var id: string
    var players: seq<string>
    var deck: seq<Card>
    var hands: map<string, seq<Card>>
    var centerPile: seq<Card>
    var currentTurn: Option<string>
    var suiteChanged: Option<Suit>
    var status: Status

    ghost predicate Valid()
      reads this
    {
      TableValid(players, hands, currentTurn, centerPile)
    }

    ghost predicate Seated()
      reads this
    {
      SeatedAt(players, hands)
    }

    /** Two players are seated with hands, and one of them holds the turn. */
    ghost predicate InPlay()
      reads this
    {
      TableValid(players, hands, currentTurn, centerPile) && SeatedAt(players, hands)
      && currentTurn.Some? && (currentTurn.value == players[0] || currentTurn.value == players[1])
    }

    constructor (id: string)
      ensures Valid()
      ensures this.id == id && players == [] && deck == [] && hands == map[] && centerPile == []
      ensures currentTurn == None && suiteChanged == None && status == Waiting
    {
      this.id := id;
      players := [];
      deck := [];
      hands := map[];
      centerPile := [];
      currentTurn := None;
      suiteChanged := None;
      status := Waiting;
    }

    /** A copy of the seats, never more than two. */
    function GetPlayers(): (r: seq<string>)
      reads this
      requires Valid()
      ensures r == players && |r| <= 2
    {
      players
    }

    method AddPlayer(playerId: string) returns (ok: bool)
      requires Valid()
      modifies this`players
      ensures Valid()
      ensures ok <==> |old(players)| < 2
      ensures players == if ok then old(players) + [playerId] else old(players)
    {
      if |players| < 2 {
        players := players + [playerId];
        return true;
      }
      return false;
    }

    /** The game's opponent of playerId: the first seat not held by playerId, or the
        empty id when there is none. */
    function GetOpponentId(playerId: string): (r: string)
      reads this`players
      ensures r == "" || (r in players && r != playerId)
      ensures |players| > 0 && players[0] != playerId ==> r == players[0]
      ensures |players| == 2 && players[0] == playerId ==> r == (if players[1] == playerId then "" else players[1])
    {
      FindOtherFirst(players, playerId, 0);
      match FindOther(players, playerId, 0)
      case Some(q) => q
      case None => ""
    }

    method Start(rand: nat -> nat) returns (ok: bool)
      requires Valid()
      modifies this`deck, this`hands, this`centerPile, this`status, this`currentTurn
      ensures Valid()
      ensures ok <==> |players| == 2
      ensures !ok ==> deck == old(deck) && hands == old(hands) && centerPile == old(centerPile)
                      && status == old(status) && currentTurn == old(currentTurn)
      ensures ok ==> status == Playing && currentTurn == Some(players[0])
      // The shuffled deck x deals x[..7] and x[7..14]; the scan then runs over the rest.
      ensures ok ==> var x := Shuffled(StandardDeck(), rand);
                     var rest := x[14..];
                     hands == old(hands)[players[0] := x[..7]][players[1] := x[7..14]]
                     && exists i: nat :: FirstPlainAt(rest, i) && centerPile == [rest[i]] && deck == rest[..i] + rest[i + 1..]
      ensures ok ==> |hands[players[0]]| == 7 && |hands[players[1]]| == 7 && |deck| == 37
      ensures ok ==> |centerPile| == 1 && !IsSpecial(centerPile[0].value)
      ensures ok && players[0] != players[1] ==> InPlay()
    {
      if |players| != 2 {
        return false;
      }
      InitializeDeck(rand);
      ghost var x := deck;
      ShuffledDeckHasOpeningCard(rand);
      assert 7 * |players| == 14;
      ghost var i := DealCards();
      assert Dealt(old(hands), players, x, 1) == old(hands)[players[0] := x[0..7]];
      assert x[0..7] == x[..7];
      status := Playing;
      currentTurn := Some(players[0]);
      return true;
    }

    /** Builds the 52 cards suit by suit, then shuffles them. */
    method InitializeDeck(rand: nat -> nat)
      modifies this`deck
      ensures deck == Shuffled(StandardDeck(), rand)
    {
      deck := [];
      var si := 0;
      while si < |Suits|
        invariant 0 <= si <= |Suits|
        invariant deck == StandardDeck()[..13 * si]
      {
        var vi := 0;
        while vi < |Values|
          invariant 0 <= vi <= |Values|
          invariant deck == StandardDeck()[..13 * si + vi]
        {
          ghost var n := 13 * si + vi;
          assert n / 13 == si && n % 13 == vi;
          TakeOneMore(StandardDeck(), n);
          deck := deck + [Card(Suits[si], Values[vi])];
          vi := vi + 1;
        }
        si := si + 1;
      }
      assert deck == StandardDeck();
      ShuffleDeck(rand);
    }

    /** Walks i from the last position down to 1, swapping position i with a position
        at or below it. */
    method ShuffleDeck(rand: nat -> nat)
      modifies this`deck
      ensures deck == Shuffled(old(deck), rand)
    {
      var i := |deck| - 1;
      while i > 0
        invariant i < |deck| && |deck| == |old(deck)|
        invariant ShuffleDown(deck, i, rand) == Shuffled(old(deck), rand)
      {
        var j := PickIndex(rand, i);
        ShuffleDownStep(deck, i, rand);
        SwapIsUpdate(deck, i, j);
        deck := deck[i := deck[j]][j := deck[i]];
        i := i - 1;
      }
    }

    /** `dealCards`: every seated player takes the next seven cards, then the opening
        card is taken from what is left. Returns the scan's final counter. */
    method DealCards() returns (ghost opening: nat)
      requires 7 * |players| <= |deck|
      requires HasOpeningCard(deck[7 * |players|..])
      modifies this`hands, this`deck, this`centerPile
      ensures hands == Dealt(old(hands), players, old(deck), |players|)
      ensures var d := old(deck)[7 * |players|..];
              FirstPlainAt(d, opening) && centerPile == [d[opening]] && deck == d[..opening] + d[opening + 1..]
    {
      DealHands();
      opening := TakeOpeningCard();
    }

    /** The `forEach` of `dealCards`: `hands[p] = deck.splice(0, 7)` for each seat in order. */
    method DealHands()
      requires 7 * |players| <= |deck|
      modifies this`hands, this`deck
      ensures hands == Dealt(old(hands), players, old(deck), |players|)
      ensures deck == old(deck)[7 * |players|..]
    {
      var k := 0;
      while k < |players|
        invariant 0 <= k <= |players|
        invariant deck == old(deck)[7 * k..]
        invariant hands == Dealt(old(hands), players, old(deck), k)
      {
        assert deck[..7] == old(deck)[7 * k .. 7 * k + 7];
        assert deck[7..] == old(deck)[7 * k + 7..];
        hands := hands[players[k] := deck[..7]];
        deck := deck[7..];
        k := k + 1;
      }
    }

    /** The `do ... while` scan of `dealCards`: from position 1, skip Eights, Twos, Jacks
        and Kings; splice the first other card out of the deck and make it the whole pile. */
    method TakeOpeningCard() returns (ghost counterAt: nat)
      requires HasOpeningCard(deck)
      modifies this`deck, this`centerPile
      ensures FirstPlainAt(old(deck), counterAt)
      ensures centerPile == [old(deck)[counterAt]] && deck == old(deck)[..counterAt] + old(deck)[counterAt + 1..]
    {
      var isFirstCardValid := false;
      var counter := 1;
      while !isFirstCardValid
        invariant 1 <= counter < |old(deck)|
        invariant forall j :: 1 <= j < counter ==> IsSpecial(old(deck)[j].value)
        invariant !isFirstCardValid ==> deck == old(deck) && exists j :: counter <= j < |deck| && !IsSpecial(deck[j].value)
        invariant isFirstCardValid ==> !IsSpecial(old(deck)[counter].value) && centerPile == [old(deck)[counter]]
                                       && deck == old(deck)[..counter] + old(deck)[counter + 1..]
        decreases if isFirstCardValid then 0 else |old(deck)| - counter + 1
      {
        var firstCard := deck[counter];
        if IsSpecial(firstCard.value) {
          counter := counter + 1;
        } else {
          centerPile := [deck[counter]];
          deck := deck[..counter] + deck[counter + 1..];
          isFirstCardValid := true;
        }
      }
      counterAt := counter;
    }

    method RemoveCardFromPlayersHand(playerId: string, card: Card)
      requires playerId in hands
      modifies this`hands
      ensures hands == old(hands)[playerId := RemoveCard(old(hands)[playerId], card)]
    {
      hands := hands[playerId := RemoveCard(hands[playerId], card)];
    }

    /** Finishes the game when playerId's hand is empty. */
    method CheckIfPlayerHasWon(playerId: string)
      requires playerId in hands
      modifies this`status
      ensures status == if |hands[playerId]| == 0 then Finished else old(status)
    {
      if |hands[playerId]| > 0 {
        return;
      }
      status := Finished;
    }

    function GetGameStateForPlayer(playerId: string): (v: View)
      reads this
      requires playerId in hands && GetOpponentId(playerId) in hands
      ensures v.yourHand == hands[playerId] && v.opponentCardCount == |hands[GetOpponentId(playerId)]|
      ensures v.isMyTurn <==> currentTurn == Some(playerId)
      ensures v.topCard == if centerPile == [] then None else Some(centerPile[|centerPile| - 1])
      ensures v.suiteChanged == suiteChanged && v.status == status
    {
      View(
        hands[playerId],
        if centerPile == [] then None else Some(centerPile[|centerPile| - 1]),
        currentTurn == Some(playerId),
        |hands[GetOpponentId(playerId)]|,
        suiteChanged,
        status)
    }

    method PlayCard(playerId: string, card: Card, declared: Option<Suit>) returns (ok: bool)
      requires Valid()
      requires currentTurn == Some(playerId) ==> playerId in hands
      modifies this`centerPile, this`hands, this`currentTurn, this`suiteChanged, this`status
      ensures Valid()
      // Only the player holding the turn may play; an Eight is always accepted, any
      // other card must match the declared suit, the top card's suit or its rank.
      ensures ok <==> old(currentTurn) == Some(playerId)
                      && (card.value == Eight
                          || old(suiteChanged) == Some(card.suit)
                          || old(centerPile)[|old(centerPile)| - 1].suit == card.suit
                          || old(centerPile)[|old(centerPile)| - 1].value == card.value)
      ensures !ok ==> unchanged(this)
      ensures ok ==> suiteChanged == if card.value == Eight then declared else None
      ensures ok ==> centerPile == if card.value == King then old(centerPile) + [card] + [card] else old(centerPile) + [card]
      ensures ok ==> hands == old(hands)[playerId := if card.value == King then RemoveCard(RemoveCard(old(hands)[playerId], card), card)
                                                    else RemoveCard(old(hands)[playerId], card)]
      // A Two or a Jack keeps the turn and cannot end the game; any other accepted card
      // hands the turn over and ends the game when it empties the hand.
      ensures ok ==> currentTurn == if card.value == Two || card.value == Jack then old(currentTurn) else Some(GetOpponentId(playerId))
      ensures ok ==> status == if card.value != Two && card.value != Jack && |hands[playerId]| == 0 then Finished else old(status)
      ensures old(InPlay()) ==> InPlay()
    {
      if currentTurn != Some(playerId) {
        return false;
      }
      var topCard := centerPile[|centerPile| - 1];

      if card.value == Eight {
        suiteChanged := declared;
        // The source hands the turn over between the push and the removal; neither
        // step reads the turn, so this is the same state change.
        DiscardAndPassTurn(playerId, card);
        return true;
      }

      var isSuitEquals := (suiteChanged.Some? && suiteChanged.value == card.suit) || topCard.suit == card.suit;
      if !isSuitEquals && card.value != topCard.value {
        return false;
      }

      PlayAccepted(playerId, card);
      return true;
    }

    /** The rest of `playCard` once a card other than an Eight has been accepted: the
        declared suit is cleared; a Two or a Jack goes on the pile and the player keeps
        the turn; a King goes on the pile twice (the source has no `return` after its
        branch, so the common tail runs as well); any other card goes on the pile, the
        turn passes, and an empty hand ends the game. */
    method PlayAccepted(playerId: string, card: Card)
      requires Valid() && playerId in hands && currentTurn == Some(playerId)
      modifies this`centerPile, this`hands, this`currentTurn, this`suiteChanged, this`status
      ensures Valid()
      ensures suiteChanged == None
      ensures centerPile == if card.value == King then old(centerPile) + [card] + [card] else old(centerPile) + [card]
      ensures hands == old(hands)[playerId := if card.value == King then RemoveCard(RemoveCard(old(hands)[playerId], card), card)
                                             else RemoveCard(old(hands)[playerId], card)]
      ensures currentTurn == if card.value == Two || card.value == Jack then old(currentTurn) else Some(GetOpponentId(playerId))
      ensures status == if card.value != Two && card.value != Jack && |hands[playerId]| == 0 then Finished else old(status)
      ensures old(InPlay()) ==> InPlay()
    {
      suiteChanged := None;

      if card.value == Two {
        Discard(playerId, card);
        return;
      }

      if card.value == Jack {
        Discard(playerId, card);
        return;
      }

      if card.value == King {
        PlayKing(playerId, card);
        return;
      }

      DiscardAndPassTurn(playerId, card);
    }

    /** The King branch of `playCard`: the King goes on the pile and out of the hand, the
        turn passes, and then, as the source has no `return` after the branch, the common
        tail pushes and removes the King a second time. */
    method PlayKing(playerId: string, card: Card)
      requires Valid() && playerId in hands && currentTurn == Some(playerId) && card.value == King
      modifies this`centerPile, this`hands, this`currentTurn, this`status
      ensures Valid()
      ensures centerPile == old(centerPile) + [card] + [card]
      ensures hands == old(hands)[playerId := RemoveCard(RemoveCard(old(hands)[playerId], card), card)]
      ensures currentTurn == Some(GetOpponentId(playerId))
      ensures status == if |hands[playerId]| == 0 then Finished else old(status)
      ensures old(InPlay()) ==> InPlay()
    {
      ghost var h0 := hands[playerId];
      Discard(playerId, card);
      currentTurn := Some(GetOpponentId(playerId));
      DiscardAndPassTurn(playerId, card);
      ReplaceTwice(old(hands), playerId, RemoveCard(h0, card), RemoveCard(RemoveCard(h0, card), card));
    }

    /** The common tail of `playCard`: the card goes on the pile and out of the hand, the
        turn passes to the opponent, and an empty hand ends the game. */
    method DiscardAndPassTurn(playerId: string, card: Card)
      requires Valid() && playerId in hands && currentTurn.Some?
      modifies this`centerPile, this`hands, this`currentTurn, this`status
      ensures Valid()
      ensures centerPile == old(centerPile) + [card]
      ensures hands == old(hands)[playerId := RemoveCard(old(hands)[playerId], card)]
      ensures currentTurn == Some(GetOpponentId(playerId))
      ensures status == if |hands[playerId]| == 0 then Finished else old(status)
      ensures old(InPlay()) && (playerId == players[0] || playerId == players[1]) ==> InPlay()
    {
      Discard(playerId, card);
      currentTurn := Some(GetOpponentId(playerId));
      CheckIfPlayerHasWon(playerId);
    }

    /** The step every accepted play repeats: push the card on the pile, then take it out
        of playerId's hand. */
    method Discard(playerId: string, card: Card)
      requires Valid() && playerId in hands
      modifies this`centerPile, this`hands
      ensures centerPile == old(centerPile) + [card]
      ensures hands == old(hands)[playerId := RemoveCard(old(hands)[playerId], card)]
      ensures Valid()
      ensures old(InPlay()) ==> InPlay()
    {
      centerPile := centerPile + [card];
      RemoveCardFromPlayersHand(playerId, card);
    }

    /** When the deck is empty, the pile under its top card is recycled into a shuffled
        deck; then the deck's first card, if any, goes to playerId's hand. There is no
        turn check. */
    method DrawCard(playerId: string, rand: nat -> nat) returns (card: Option<Card>)
      requires Valid()
      requires playerId in hands
      modifies this`deck, this`centerPile, this`hands
      ensures Valid()
      ensures var (source, pile) := Replenished(old(deck), old(centerPile), rand);
              && centerPile == pile
              && (source == [] ==> card == None && deck == [] && hands == old(hands))
              && (source != [] ==> card == Some(source[0]) && deck == source[1..]
                                   && hands == old(hands)[playerId := old(hands)[playerId] + [source[0]]])
      ensures old(InPlay()) ==> InPlay()
      ensures old(Seated()) ==> Seated()
    {
      if deck == [] {
        if centerPile != [] {
          var topCard := centerPile[|centerPile| - 1];
          deck := centerPile[..|centerPile| - 1];
          centerPile := [topCard];
          ShuffleDeck(rand);
        }
      }
      if deck != [] {
        var drawn := deck[0];
        deck := deck[1..];
        hands := hands[playerId := hands[playerId] + [drawn]];
        card := Some(drawn);
      } else {
        card := None;
      }
    }

    /** Hands the turn to the opponent; refused, with `false`, when playerId does not
        hold the turn. On success the source returns nothing (`undefined`). */
    method Pass(playerId: string) returns (r: Option<bool>)
      requires Valid()
      modifies this`currentTurn
      ensures Valid()
      ensures r == if old(currentTurn) == Some(playerId) then None else Some(false)
      ensures currentTurn == if old(currentTurn) == Some(playerId) then Some(GetOpponentId(playerId)) else old(currentTurn)
      ensures old(InPlay()) ==> InPlay()
    {
      if currentTurn != Some(playerId) {
        return Some(false);
      }
      currentTurn := Some(GetOpponentId(playerId));
      return None;
    }
  }

  /** The view depends on the opponent's hand only through its size: two games that
      differ only in the contents of the opponent's hand show playerId the same view. */
  lemma ViewHidesOpponentHand(g: Game, h: Game, playerId: string)
    requires g.players == h.players && g.centerPile == h.centerPile && g.currentTurn == h.currentTurn
    requires g.suiteChanged == h.suiteChanged && g.status == h.status
    requires playerId in g.hands && playerId in h.hands && g.hands[playerId] == h.hands[playerId]
    requires g.GetOpponentId(playerId) in g.hands && h.GetOpponentId(playerId) in h.hands
    requires |g.hands[g.GetOpponentId(playerId)]| == |h.hands[h.GetOpponentId(playerId)]|
    ensures g.GetGameStateForPlayer(playerId) == h.GetGameStateForPlayer(playerId)
  {
  }
}
