/** The card model: the four suits, the thirteen ranks, the 52-card deck the game
    is built from, and the counting fact that makes the opening-card scan safe. */
module Cards {

  datatype Suit = Hearts | Diamonds | Clubs | Spades

  datatype Value = Ace | Two | Three | Four | Five | Six | Seven | Eight | Nine | Ten | Jack | Queen | King

  datatype Card = Card(suit: Suit, value: Value)

  /** The suits and the ranks in the order the deck is built from them. */
  const Suits: seq<Suit> := [Hearts, Diamonds, Clubs, Spades]
  const Values: seq<Value> := [Ace, Two, Three, Four, Five, Six, Seven, Eight, Nine, Ten, Jack, Queen, King]

  function SuitIndex(s: Suit): (i: nat)
    ensures i < |Suits| && Suits[i] == s
  {
    match s
    case Hearts => 0
    case Diamonds => 1
    case Clubs => 2
    case Spades => 3
  }

  function ValueIndex(v: Value): (i: nat)
    ensures i < |Values| && Values[i] == v
  {
    match v
    case Ace => 0
    case Two => 1
    case Three => 2
    case Four => 3
    case Five => 4
    case Six => 5
    case Seven => 6
    case Eight => 7
    case Nine => 8
    case Ten => 9
    case Jack => 10
    case Queen => 11
    case King => 12
  }

  /** The ranks with a play effect; none of them may open the game. */
  predicate IsSpecial(v: Value)
    ensures IsSpecial(v) <==> ValueIndex(v) in {1, 7, 10, 12}
  {
    v == Eight || v == Two || v == Jack || v == King
  }

  /** The deck as it is built: suit by suit, each suit in rank order. */
  function StandardDeck(): (d: seq<Card>)
    ensures |d| == 52
    ensures forall i :: 0 <= i < 52 ==> d[i] == Card(Suits[i / 13], Values[i % 13])
  {
    seq(52, i requires 0 <= i < 52 => Card(Suits[i / 13], Values[i % 13]))
  }

  /** No card occurs twice. */
  ghost predicate Distinct(s: seq<Card>) {
    forall c :: multiset(s)[c] <= 1
  }

  lemma {:induction false} DistinctByIndex(s: seq<Card>)
    requires forall i, j :: 0 <= i < j < |s| ==> s[i] != s[j]
    ensures Distinct(s)
  {
    if s != [] {
      var t := s[1..];
      assert s == [s[0]] + t;
      DistinctByIndex(t);
      assert s[0] !in t by {
        forall k | 0 <= k < |t| ensures t[k] != s[0] { assert t[k] == s[k + 1]; }
      }
      forall c ensures multiset(s)[c] <= 1 {
        assert multiset(s)[c] == multiset([s[0]])[c] + multiset(t)[c];
      }
    }
  }

  lemma SuitsAreDistinct(a: nat, b: nat)
    requires a < 4 && b < 4 && Suits[a] == Suits[b]
    ensures a == b
  {
  }


  lemma ValuesAreDistinct(a: nat, b: nat)
    requires a < 13 && b < 13 && Values[a] == Values[b]
    ensures a == b
  {
  }


  /** Every one of the 52 cards, each exactly once. */
  ghost predicate IsFullDeck(m: multiset<Card>) {
    forall c :: m[c] == 1
  }

  /** The deck as built is a full deck. */
  lemma StandardDeckIsFull()
    ensures IsFullDeck(multiset(StandardDeck()))
  {
    forall c ensures multiset(StandardDeck())[c] == 1 {
      StandardDeckHasEachCardOnce(c);
    }
  }

  lemma StandardDeckHasEachCardOnce(c: Card)
    ensures multiset(StandardDeck())[c] == 1
  {
    var d := StandardDeck();
    forall i, j | 0 <= i < j < |d| ensures d[i] != d[j] {
      if d[i] == d[j] {
        SuitsAreDistinct(i / 13, j / 13);
        ValuesAreDistinct(i % 13, j % 13);
      }
    }
    DistinctByIndex(d);
    var k := SuitIndex(c.suit) * 13 + ValueIndex(c.value);
    assert k / 13 == SuitIndex(c.suit) && k % 13 == ValueIndex(c.value);
    assert d[k] == c;
  }

  /** The sixteen cards whose rank has a play effect. */
  const SpecialCards: set<Card> := {
    Card(Hearts, Two), Card(Hearts, Eight), Card(Hearts, Jack), Card(Hearts, King),
    Card(Diamonds, Two), Card(Diamonds, Eight), Card(Diamonds, Jack), Card(Diamonds, King),
    Card(Clubs, Two), Card(Clubs, Eight), Card(Clubs, Jack), Card(Clubs, King),
    Card(Spades, Two), Card(Spades, Eight), Card(Spades, Jack), Card(Spades, King)
  }

  lemma SpecialCardsAtMostSixteen()
    ensures |SpecialCards| <= 16
    ensures forall c: Card :: IsSpecial(c.value) ==> c in SpecialCards
  {
    forall c: Card | IsSpecial(c.value) ensures c in SpecialCards {
      match c.suit
      case Hearts => {}
      case Diamonds => {}
      case Clubs => {}
      case Spades => {}
    }
  }

  /** Pigeonhole: a sequence of distinct cards drawn from a set is no longer than the set. */
  lemma {:induction false} DistinctWithin(s: seq<Card>, a: set<Card>)
    requires Distinct(s)
    requires forall i :: 0 <= i < |s| ==> s[i] in a
    ensures |s| <= |a|
  {
    if s != [] {
      var x, t := s[0], s[1..];
      assert s == [x] + t;
      assert multiset(s) == multiset{x} + multiset(t);
      assert Distinct(t) by {
        forall c ensures multiset(t)[c] <= 1 { assert multiset(t)[c] <= multiset(s)[c]; }
      }
      assert multiset(s)[x] <= 1 && multiset(s)[x] == 1 + multiset(t)[x];
      forall i | 0 <= i < |t| ensures t[i] in a - {x} {
        assert t[i] == s[i + 1];
        assert t[i] in multiset(t);
      }
      DistinctWithin(t, a - {x});
      assert a == (a - {x}) + {x};
    }
  }

  /** Some card from position 1 on has no special rank. */
  ghost predicate HasOpeningCard(d: seq<Card>) {
    exists k :: 1 <= k < |d| && !IsSpecial(d[k].value)
  }

  /** However the full deck is ordered, some card at position 15 or later is not special.
      After two hands of seven are dealt these are the deck positions 1 onwards, where
      the opening-card scan looks. */
  lemma OpeningCardExists(x: seq<Card>)
    requires IsFullDeck(multiset(x))
    ensures |x| == 52
    ensures HasOpeningCard(x[14..])
  {
    StandardDeckIsFull();
    assert multiset(x) == multiset(StandardDeck());
    assert |x| == |multiset(x)| == |multiset(StandardDeck())| == 52;
    if forall k :: 15 <= k < 52 ==> IsSpecial(x[k].value) {
      var t := x[15..];
      assert x == x[..15] + t;
      assert Distinct(t) by {
        forall c ensures multiset(t)[c] <= 1 {
          assert multiset(x)[c] == multiset(x[..15])[c] + multiset(t)[c];
        }
      }
      SpecialCardsAtMostSixteen();
      forall i | 0 <= i < |t| ensures t[i] in SpecialCards {
        assert t[i] == x[15 + i];
      }
      DistinctWithin(t, SpecialCards);
      assert false;
    }
    var k :| 15 <= k < 52 && !IsSpecial(x[k].value);
    assert x[14..][k - 14] == x[k];
  }
}
