/** Playing cards: the six suits, the fourteen ranks and the value of a card. */
module Cards {

  /** Suits in declaration order; each joker has a suit of its own. */
  datatype Suit = Clubs | Diamonds | Hearts | Spades | JokerA | JokerB

  /** Ranks in declaration order; `Joker` is the rank of both jokers. */
  datatype Rank = Ace | Two | Three | Four | Five | Six | Seven | Eight | Nine | Ten
                | Jack | Queen | King | Joker

  /** `Suit.values()`: the iteration order used when the sorted deck is built. */
  const Suits: seq<Suit> := [Clubs, Diamonds, Hearts, Spades, JokerA, JokerB]

  /** `Rank.values()`. */
  const Ranks: seq<Rank> := [Ace, Two, Three, Four, Five, Six, Seven, Eight, Nine, Ten,
                             Jack, Queen, King, Joker]

  predicate IsJokerSuit(s: Suit) {
    s == JokerA || s == JokerB
  }

  /** The base value a suit adds to a card's rank value. */
  function SuitValue(s: Suit): (v: nat)
    ensures IsJokerSuit(s) <==> v == 53
    ensures !IsJokerSuit(s) ==> v % 13 == 0 && v <= 39
  {
    match s
    case Clubs => 0
    case Diamonds => 13
    case Hearts => 26
    case Spades => 39
    case JokerA => 53
    case JokerB => 53
  }

  function RankValue(r: Rank): (v: nat)
    ensures r == Joker <==> v == 0
    ensures v <= 13
  {
    match r
    case Ace => 1
    case Two => 2
    case Three => 3
    case Four => 4
    case Five => 5
    case Six => 6
    case Seven => 7
    case Eight => 8
    case Nine => 9
    case Ten => 10
    case Jack => 11
    case Queen => 12
    case King => 13
    case Joker => 0
  }

  /** A card is an immutable (suit, rank) pair; equality of cards is equality of both parts. */
  datatype Card = Card(suit: Suit, rank: Rank)

  const JokerACard := Card(JokerA, Joker)
  const JokerBCard := Card(JokerB, Joker)

  /** One of the 52 ordinary cards: a real suit and a real rank. */
  predicate IsRegular(c: Card) {
    !IsJokerSuit(c.suit) && c.rank != Joker
  }

  predicate IsJoker(c: Card) {
    c == JokerACard || c == JokerBCard
  }

  /** `Card.getValue`: the rank value plus the suit base. */
  function CardValue(c: Card): (v: nat)
    ensures IsJoker(c) ==> v == 53
    ensures IsRegular(c) ==> 1 <= v <= 52 && (v - 1) / 13 == SuitValue(c.suit) / 13
  {
    RankValue(c.rank) + SuitValue(c.suit)
  }

  /** `Card.equals`: same suit and same rank. */
  function SameCard(a: Card, b: Card): (r: bool)
    ensures r <==> a == b
  {
    a.suit == b.suit && a.rank == b.rank
  }

  /** The regular card of value `v`; the inverse of `CardValue` on regular cards. */
  function CardOfValue(v: int): (c: Card)
    requires 1 <= v <= 52
    ensures IsRegular(c) && CardValue(c) == v
    ensures c == Card(Suits[(v - 1) / 13], Ranks[(v - 1) % 13])
  {
    Card(Suits[(v - 1) / 13], Ranks[(v - 1) % 13])
  }

  /** Rank values follow declaration order: ACE..KING are 1..13 and JOKER is 0. */
  lemma RankValuesInOrder()
    ensures |Ranks| == 14 && RankValue(Ranks[13]) == 0
    ensures forall i :: 0 <= i < 13 ==> RankValue(Ranks[i]) == i + 1
    ensures forall r: Rank :: r in Ranks
  {
    forall r: Rank ensures r in Ranks {
      var i := if r == Joker then 13 else RankValue(r) - 1;
      assert Ranks[i] == r;
    }
  }

  /** Distinct ranks have distinct values, so a value determines its rank. */
  lemma RankValueInjective(a: Rank, b: Rank)
    requires RankValue(a) == RankValue(b)
    ensures a == b
  {
  }

  /** The four real suit bases are consecutive multiples of 13 in declaration order;
      both joker suits have base 53 and are still different suits. */
  lemma SuitValuesInOrder()
    ensures |Suits| == 6 && forall i :: 0 <= i < 4 ==> SuitValue(Suits[i]) == 13 * i
    ensures SuitValue(JokerA) == SuitValue(JokerB) == 53 && JokerA != JokerB
    ensures forall s: Suit :: s in Suits
  {
    forall s: Suit ensures s in Suits {
      var i := if s == JokerB then 5 else if s == JokerA then 4 else SuitValue(s) / 13;
      assert Suits[i] == s;
    }
  }

  /** Every regular card is the card of its own value. */
  lemma {:induction false} CardOfValueOfRegular(c: Card)
    requires IsRegular(c)
    ensures CardOfValue(CardValue(c)) == c
  {
    var v := CardValue(c);
    var q := SuitValue(c.suit) / 13;
    assert 0 <= q < 4 && Suits[q] == c.suit;
    assert v - 1 == 13 * q + (RankValue(c.rank) - 1);
    assert (v - 1) / 13 == q && (v - 1) % 13 == RankValue(c.rank) - 1;
    RankValuesInOrder();
    RankValueInjective(Ranks[RankValue(c.rank) - 1], c.rank);
  }

  /** Over the 52 regular cards `getValue` is injective, and its range is exactly 1..52. */
  lemma {:induction false} RegularValuesAreDistinct(a: Card, b: Card)
    requires IsRegular(a) && IsRegular(b) && CardValue(a) == CardValue(b)
    ensures a == b
  {
    CardOfValueOfRegular(a);
    CardOfValueOfRegular(b);
  }

  /** The two jokers are different cards with the same value. */
  lemma JokersDifferButShareValue()
    ensures JokerACard != JokerBCard && !SameCard(JokerACard, JokerBCard)
    ensures CardValue(JokerACard) == CardValue(JokerBCard) == 53
  {
  }
}
