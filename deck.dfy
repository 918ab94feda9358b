/** The deck of 54 cards and the three reorderings the keystream is built from: moving a
    card down (with the wrap rule below the top card), the triple cut on two cards and the
    bottom value cut. Each reordering is first a function on the card sequence; the `Deck`
    class at the end applies them to its working list in place. */
module Decks {
  import opened Prelude
  import opened Cards
  import opened Rearrangements

  /** The order `sort(true)` produces: the 52 regular cards in value order 1..52, then
      joker A, then joker B. */
  function SortedCards(): (s: seq<Card>)
    ensures |s| == 54
  {
    seq(54, SortedCardAt)
  }

  /** The card at position `i` of the sorted deck. */
  function SortedCardAt(i: int): Card {
    if 0 <= i < 52 then CardOfValue(i + 1) else if i == 52 then JokerACard else JokerBCard
  }

  /** The sorted deck position by position, the two jokers last. */
  lemma SortedCardsAt()
    ensures forall k :: 0 <= k < 54 ==> SortedCards()[k] == SortedCardAt(k)
    ensures SortedCardAt(52) == JokerACard && SortedCardAt(53) == JokerBCard
  {
  }

  /** A deck: some order of exactly the 54 cards of the sorted deck. */
  ghost predicate IsDeck(s: seq<Card>) {
    multiset(s) == multiset(SortedCards())
  }

  /** The sorted deck holds every regular card once, in value order, then the two jokers. */
  lemma {:induction false} SortedCardsInValueOrder()
    ensures forall i :: 0 <= i < 52 ==> IsRegular(SortedCards()[i]) && CardValue(SortedCards()[i]) == i + 1
    ensures SortedCards()[52] == JokerACard && SortedCards()[53] == JokerBCard
    ensures Distinct(SortedCards())
    ensures forall c: Card :: IsRegular(c) ==> c in SortedCards()
  {
    var s := SortedCards();
    forall i, j | 0 <= i < j < 54 ensures s[i] != s[j] {
      if j < 52 {
        assert CardValue(s[i]) == i + 1 && CardValue(s[j]) == j + 1;
      }
    }
    forall c: Card | IsRegular(c) ensures c in s {
      CardOfValueOfRegular(c);
      assert s[CardValue(c) - 1] == c;
    }
  }

  /** A deck has 54 cards and none of them twice. */
  lemma DeckIsDistinct(s: seq<Card>)
    requires IsDeck(s)
    ensures |s| == 54 && Distinct(s)
  {
    var t := SortedCards();
    SortedCardsInValueOrder();
    assert |s| == |multiset(s)| == |multiset(t)| == 54;
    DistinctPermutation(t, s);
  }

  /** Both jokers are in every deck. */
  lemma DeckHasJokers(s: seq<Card>)
    requires IsDeck(s)
    ensures JokerACard in s && JokerBCard in s
  {
    var t := SortedCards();
    assert t[52] == JokerACard && t[53] == JokerBCard;
    assert t[52] in multiset(s) && t[53] in multiset(s);
  }

  /** A card of a deck is a regular card or one of the two jokers, so its value is at most
      53 and it has the JOKER rank exactly when it is a joker. */
  lemma DeckCard(s: seq<Card>, c: Card)
    requires IsDeck(s) && c in s
    ensures IsRegular(c) || IsJoker(c)
    ensures CardValue(c) <= 53
    ensures c.rank == Joker <==> IsJoker(c)
  {
    var t := SortedCards();
    assert c in multiset(t);
    var k :| 0 <= k < 54 && t[k] == c;
  }

  /** A permutation of a deck is a deck. */
  lemma PermutedDeck(s: seq<Card>, t: seq<Card>)
    requires IsDeck(s) && multiset(t) == multiset(s)
    ensures IsDeck(t)
  {
  }

  /** `Collections.reverse`. */
  function Reversed(s: seq<Card>): (r: seq<Card>)
    ensures |r| == |s| && multiset(r) == multiset(s)
    ensures forall i :: 0 <= i < |s| ==> r[i] == s[|s| - 1 - i]
  {
    if s == [] then []
    else
      assert s == [s[0]] + s[1..];
      Reversed(s[1..]) + [s[0]]
  }

  /** `bottomValueCut`: with `v` the value of the bottom card, the top `v` cards move to just
      above the bottom card. `subList` throws unless `v` is at most the number of other
      cards. */
  function BottomValueCutOf(s: seq<Card>): (r: seq<Card>)
    requires 1 <= |s| && CardValue(s[|s| - 1]) <= |s| - 1
    ensures |r| == |s| && r[|s| - 1] == s[|s| - 1]
  {
    CutAboveLast(s, CardValue(s[|s| - 1]))
  }

  /** Each reordering of a deck is again a deck. */
  lemma MovedDownOnceKeepsDeck(s: seq<Card>, c: Card)
    requires IsDeck(s) && c in s && 2 <= |s|
    ensures IsDeck(MovedDownOnce(s, c))
  {
    MovedDownOncePermutes(s, c);
  }

  lemma MovedDownKeepsDeck(s: seq<Card>, c: Card, n: nat)
    requires IsDeck(s) && c in s && 2 <= |s|
    ensures IsDeck(MovedDown(s, c, n))
  {
    MovedDownPermutes(s, c, n);
  }

  lemma TripleCutKeepsDeck(s: seq<Card>, a: Card, b: Card)
    requires IsDeck(s) && a in s && b in s
    ensures IsDeck(TripleCutOf(s, a, b))
  {
    TripleCutPermutes(s, a, b);
  }

  lemma BottomValueCutKeepsDeck(s: seq<Card>)
    requires IsDeck(s)
    ensures |s| == 54 && CardValue(s[53]) <= 53
    ensures IsDeck(BottomValueCutOf(s))
  {
    DeckIsDistinct(s);
    DeckCard(s, s[53]);
    CutAboveLastPermutes(s, CardValue(s[53]));
  }

  /** One keystream step of `getNextCard`: joker A down one, joker B down two, a triple cut
      on the two jokers and a bottom value cut. */
  function KeystreamStep(s: seq<Card>): (r: seq<Card>)
    requires IsDeck(s)
    ensures IsDeck(r)
  {
    DeckHasJokers(s);
    DeckIsDistinct(s);
    MovedDownOnceKeepsDeck(s, JokerACard);
    var s1 := MovedDownOnce(s, JokerACard);
    DeckHasJokers(s1);
    MovedDownKeepsDeck(s1, JokerBCard, 2);
    var s2 := MovedDown(s1, JokerBCard, 2);
    DeckHasJokers(s2);
    TripleCutKeepsDeck(s2, JokerACard, JokerBCard);
    var s3 := TripleCutOf(s2, JokerACard, JokerBCard);
    BottomValueCutKeepsDeck(s3);
    BottomValueCutOf(s3)
  }

  /** The stages of a keystream step: each one is a deck again, so each card the next stage
      looks for is in it, and the bottom card's value never exceeds 53. */
  lemma KeystreamStepStages(s: seq<Card>)
    requires IsDeck(s)
    ensures |s| == 54 && JokerACard in s
    ensures var s1 := MovedDownOnce(s, JokerACard);
      IsDeck(s1) && JokerBCard in s1 &&
      var s2 := MovedDown(s1, JokerBCard, 2);
      IsDeck(s2) && JokerACard in s2 && JokerBCard in s2 &&
      var s3 := TripleCutOf(s2, JokerACard, JokerBCard);
      IsDeck(s3) && |s3| == 54 && CardValue(s3[53]) <= 53 &&
      KeystreamStep(s) == BottomValueCutOf(s3)
  {
    DeckIsDistinct(s);
    DeckHasJokers(s);
    var s1 := MovedDownOnce(s, JokerACard);
    MovedDownOnceKeepsDeck(s, JokerACard);
    DeckHasJokers(s1);
    var s2 := MovedDown(s1, JokerBCard, 2);
    MovedDownKeepsDeck(s1, JokerBCard, 2);
    DeckHasJokers(s2);
    TripleCutKeepsDeck(s2, JokerACard, JokerBCard);
    BottomValueCutKeepsDeck(TripleCutOf(s2, JokerACard, JokerBCard));
  }

  /** The card a step selects: the top card's value counts down from the top. */
  function SelectedCard(r: seq<Card>): (c: Card)
    requires IsDeck(r)
    ensures IsRegular(c) || IsJoker(c)
    ensures c.rank == Joker <==> IsJoker(c)
  {
    DeckIsDistinct(r);
    DeckCard(r, r[0]);
    var c := r[CardValue(r[0])];
    DeckCard(r, c);
    c
  }
  /** The outcome of `getNextCard`: the card drawn, if any, and the deck afterwards. */
  datatype Draw = Draw(card: Option<Card>, deck: seq<Card>)

  /** `getNextCard`, given at most `fuel` keystream steps: it steps and selects, and steps
      again while the selected card is a joker. No card is drawn when the fuel runs out. */
  function NextCard(s: seq<Card>, fuel: nat): (d: Draw)
    requires IsDeck(s)
    ensures IsDeck(d.deck)
    ensures d.card.Some? ==> IsRegular(d.card.value) && 1 <= CardValue(d.card.value) <= 52
    decreases fuel
  {
    if fuel == 0 then Draw(None, s)
    else
      var r := KeystreamStep(s);
      var c := SelectedCard(r);
      if c.rank != Joker then Draw(Some(c), r) else NextCard(r, fuel - 1)
  }

  /** Without fuel no card is drawn and the deck is left as it is. */
  lemma NextCardOutOfFuel(s: seq<Card>)
    requires IsDeck(s)
    ensures NextCard(s, 0) == Draw(None, s)
  {
  }

  /** With fuel left, a draw is one keystream step followed by a selection, and another
      draw when the selected card is a joker. */
  lemma NextCardUnfolds(s: seq<Card>, fuel: nat)
    requires IsDeck(s) && 1 <= fuel
    ensures var r := KeystreamStep(s);
      NextCard(s, fuel) ==
        if SelectedCard(r).rank != Joker then Draw(Some(SelectedCard(r)), r) else NextCard(r, fuel - 1)
  {
  }

  /** The fuel only bounds the number of joker retries: a draw that succeeds with some fuel
      draws the same card and leaves the same deck with any more fuel. */
  lemma {:induction false} NextCardFuelIrrelevant(s: seq<Card>, fuel: nat, more: nat)
    requires IsDeck(s) && fuel <= more && NextCard(s, fuel).card.Some?
    ensures NextCard(s, more) == NextCard(s, fuel)
    decreases fuel, 1
  {
    var r := KeystreamStep(s);
    NextCardUnfolds(s, fuel);
    NextCardUnfolds(s, more);
    if SelectedCard(r).rank == Joker {
      RetriedDrawFuelIrrelevant(s, fuel, more);
    }
  }

  /** The case of a joker selected by the first step: both draws retry from the same deck. */
  lemma {:induction false} RetriedDrawFuelIrrelevant(s: seq<Card>, fuel: nat, more: nat)
    requires IsDeck(s) && 1 <= fuel <= more && SelectedCard(KeystreamStep(s)).rank == Joker
    requires NextCard(KeystreamStep(s), fuel - 1).card.Some?
    ensures NextCard(s, more) == NextCard(s, fuel)
    decreases fuel, 0
  {
    hide KeystreamStep;
    var r := KeystreamStep(s);
    NextCardUnfolds(s, fuel);
    NextCardUnfolds(s, more);
    NextCardFuelIrrelevant(r, fuel - 1, more - 1);
  }

  /** The place of the card of suit `Suits[si]` and rank `Ranks[ri]` in the sorted deck. */
  lemma SortedCardOfSuitAndRank(si: int, ri: int)
    requires 0 <= si < 4 && 0 <= ri < 13
    ensures SortedCardAt(13 * si + ri) == Card(Suits[si], Ranks[ri])
  {
    assert (13 * si + ri) / 13 == si && (13 * si + ri) % 13 == ri;
  }

  /** A deck of cards: `cards` is the working order the keystream steps rearrange in place,
      `originalOrderCards` the order a message starts from, set by sorting or shuffling. */
  class Deck {
    var originalOrderCards: seq<Card>
    var cards: seq<Card>

    /** Both lists hold the 54 cards. */
    ghost predicate Valid()
      reads this
    {
      IsDeck(cards) && IsDeck(originalOrderCards)
    }

    /** `new Deck()`: a deck sorted in ascending order. */
    constructor ()
      ensures Valid()
      ensures cards == SortedCards() && originalOrderCards == SortedCards()
    {
      originalOrderCards := [];
      cards := [];
      new;
      Sort(true);
    }

    /** The private constructor behind `copy`: both lists start as `order`. */
    constructor FromOrder(order: seq<Card>)
      ensures originalOrderCards == order && cards == order
    {
      originalOrderCards := order;
      cards := order;
    }

    /** `moveCardDown(card)`. The card must be in the deck (otherwise `indexOf` is -1 and
        the list access throws) and the deck must have two cards (otherwise `add(1, card)`
        throws). */
    method MoveCardDown(card: Card)
      requires card in cards && 2 <= |cards|
      modifies this
      ensures cards == MovedDownOnce(old(cards), card)
      ensures originalOrderCards == old(originalOrderCards)
    {
      var cardIndex := IndexOf(cards, card);
      if cardIndex == |cards| - 1 {
        RemoveLastInsertSecond(cards);
        // `remove(card)` drops the first occurrence, which `indexOf` just found.
        var rest := cards[..cardIndex] + cards[cardIndex + 1..];
        cards := rest[..1] + [card] + rest[1..];
      } else {
        SetTwiceSwaps(cards, cardIndex);
        var switchIndex := cardIndex + 1;
        var switchCard := cards[switchIndex];
        cards := cards[cardIndex := switchCard];
        cards := cards[switchIndex := card];
      }
    }

    /** `moveCardDown(card, numberOfPositions)`: the loop runs no times for a count that is
        not positive. */
    method MoveCardDownBy(card: Card, numberOfPositions: int)
      requires numberOfPositions > 0 ==> card in cards && 2 <= |cards|
      modifies this
      ensures numberOfPositions <= 0 ==> cards == old(cards)
      ensures numberOfPositions > 0 ==> cards == MovedDown(old(cards), card, numberOfPositions)
      ensures originalOrderCards == old(originalOrderCards)
    {
      hide MovedDownOnce;
      var i := 0;
      while i < numberOfPositions
        invariant 0 <= i <= (if numberOfPositions < 0 then 0 else numberOfPositions)
        invariant numberOfPositions <= 0 ==> cards == old(cards)
        invariant numberOfPositions > 0 ==>
          card in cards && |cards| == |old(cards)| && cards == MovedDown(old(cards), card, i)
        invariant originalOrderCards == old(originalOrderCards)
      {
        MoveCardDown(card);
        i := i + 1;
      }
    }

    /** `tripleCut(firstCutCard, secondCutCard)`: both cards must be in the deck, or a
        `subList` bound is -1 and throws. */
    method TripleCut(firstCutCard: Card, secondCutCard: Card)
      requires firstCutCard in cards && secondCutCard in cards
      modifies this
      ensures cards == TripleCutOf(old(cards), firstCutCard, secondCutCard)
      ensures originalOrderCards == old(originalOrderCards)
    {
      hide ThreeBlocks;
      var firstCutCardIndex := IndexOf(cards, firstCutCard);
      var secondCutCardIndex := IndexOf(cards, secondCutCard);
      var firstCardIndex := if firstCutCardIndex < secondCutCardIndex then firstCutCardIndex else secondCutCardIndex;
      var secondCardIndex := if firstCutCardIndex < secondCutCardIndex then secondCutCardIndex else firstCutCardIndex;
      ThreeBlocksAppended(cards, firstCardIndex, secondCardIndex);
      var holdCardList: seq<Card> := [];
      holdCardList := holdCardList + cards[secondCardIndex + 1..];
      holdCardList := holdCardList + cards[firstCardIndex..secondCardIndex + 1];
      holdCardList := holdCardList + cards[..firstCardIndex];
      cards := holdCardList;
    }

    /** `bottomValueCut`: the bottom card's value must not exceed the number of other cards,
        or `subList` throws. */
    method BottomValueCut()
      requires 1 <= |cards| && CardValue(cards[|cards| - 1]) <= |cards| - 1
      modifies this
      ensures cards == BottomValueCutOf(old(cards))
      ensures originalOrderCards == old(originalOrderCards)
    {
      hide CutAboveLast;
      var bottomCard := cards[|cards| - 1];
      var bottomCardValue := CardValue(bottomCard);
      CutAboveLastAppended(cards, bottomCardValue);
      var holdCardList: seq<Card> := [];
      holdCardList := holdCardList + cards[bottomCardValue..|cards| - 1];
      holdCardList := holdCardList + cards[..bottomCardValue];
      holdCardList := holdCardList + [bottomCard];
      cards := holdCardList;
    }

    /** `countCards`: 54 for every deck. */
    method CountCards() returns (n: int)
      ensures n == |cards|
      ensures IsDeck(cards) ==> n == 54
    {
      if IsDeck(cards) {
        DeckIsDistinct(cards);
      }
      n := |cards|;
    }

    /** `createdOrderedDeckOfCards`: every suit and rank in declaration order, skipping the
        joker suits and the joker rank, then the two jokers. */
    method CreateOrderedDeckOfCards()
      modifies this
      ensures cards == SortedCards()
      ensures originalOrderCards == old(originalOrderCards)
    {
      hide SortedCards, SortedCardAt, CardOfValue;
      cards := [];
      var si := 0;
      while si < |Suits|
        invariant 0 <= si <= |Suits| == 6
        invariant |cards| == 13 * (if si < 4 then si else 4)
        invariant forall k :: 0 <= k < |cards| ==> cards[k] == SortedCardAt(k)
        invariant originalOrderCards == old(originalOrderCards)
      {
        var suit := Suits[si];
        var ri := 0;
        while ri < |Ranks|
          invariant 0 <= ri <= |Ranks| == 14
          invariant |cards| == 13 * (if si < 4 then si else 4) + (if si < 4 then (if ri < 13 then ri else 13) else 0)
          invariant forall k :: 0 <= k < |cards| ==> cards[k] == SortedCardAt(k)
          invariant originalOrderCards == old(originalOrderCards)
        {
          var rank := Ranks[ri];
          if !(SuitValue(suit) == 53 || rank == Joker) {
            SortedCardOfSuitAndRank(si, ri);
            cards := cards + [Card(suit, rank)];
          }
          ri := ri + 1;
        }
        si := si + 1;
      }
      cards := cards + [JokerACard];
      cards := cards + [JokerBCard];
      SortedCardsAt();
      assert forall k :: 0 <= k < 54 ==> cards[k] == SortedCards()[k];
    }

    /** `sort(ascending)`: the sorted deck, reversed for a descending sort, which also
        becomes the starting order. */
    method Sort(ascending: bool)
      modifies this
      ensures cards == if ascending then SortedCards() else Reversed(SortedCards())
      ensures originalOrderCards == cards
      ensures Valid()
    {
      hide SortedCards, SortedCardAt, Reversed;
      CreateOrderedDeckOfCards();
      if !ascending {
        cards := Reversed(cards);
      }
      originalOrderCards := cards;
    }

    /** `shuffle`: `Collections.shuffle` picks the new order; here it is the argument, any
        rearrangement of the cards. The new order becomes the starting order. */
    method Shuffle(shuffled: seq<Card>)
      requires multiset(shuffled) == multiset(cards)
      modifies this
      ensures cards == shuffled && originalOrderCards == shuffled
      ensures old(IsDeck(cards)) ==> Valid()
    {
      cards := shuffled;
      originalOrderCards := cards;
    }

    /** `getNextCard`, with at most `fuel` keystream steps: returns the card `NextCard`
        draws and leaves the deck `NextCard` leaves. */
    method GetNextCard(fuel: nat) returns (card: Option<Card>)
      requires IsDeck(cards)
      modifies this
      ensures Draw(card, cards) == NextCard(old(cards), fuel)
      ensures originalOrderCards == old(originalOrderCards)
      decreases fuel
    {
      hide KeystreamStep, MovedDownOnce, MovedDown, TripleCutOf, BottomValueCutOf, NextCard;
      if fuel == 0 {
        NextCardOutOfFuel(cards);
        return None;
      }
      var jokerA := Card(JokerA, Joker);
      var jokerB := Card(JokerB, Joker);
      ghost var s := cards;
      KeystreamStepStages(s);
      NextCardUnfolds(s, fuel);
      MoveCardDown(jokerA);
      MoveCardDownBy(jokerB, 2);
      TripleCut(jokerA, jokerB);
      BottomValueCut();
      var topCardValue := CardValue(cards[0]);
      DeckCard(cards, cards[0]);
      var next := cards[topCardValue];
      if next.rank != Joker {
        card := Some(next);
      } else {
        card := GetNextCard(fuel - 1);
      }
    }

    /** `restore`: back to the starting order. */
    method Restore()
      modifies this
      ensures cards == originalOrderCards == old(originalOrderCards)
    {
      cards := originalOrderCards;
    }

    /** `copy`: a new deck whose lists both start from this deck's starting order. */
    method Copy() returns (d: Deck)
      ensures fresh(d)
      ensures d.cards == originalOrderCards && d.originalOrderCards == originalOrderCards
    {
      d := new Deck.FromOrder(originalOrderCards);
    }
  }
}
