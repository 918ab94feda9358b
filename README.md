# Solitaire (Pontifex) cipher in Dafny

This project models the Java implementation of Bruce Schneier's Solitaire playing-card
stream cipher and proves properties of the model.

## What is modelled

- **Cards** (`cards.dfy`, module `Cards`). A card is an immutable (suit, rank) pair.
  - A card's value is its rank value plus its suit base.
  - The two jokers are different cards that both have value 53.
- **Card reorderings** (`rearrangements.dfy`, module `Rearrangements`). These are the deck's
  three reorderings as pure functions on any sequence without repeated elements:
  - moving a card down one place, wrapping from the bottom to just below the top card;
  - moving it down `n` places;
  - the triple cut on two cards;
  - the cut of the top `v` cards to just above the bottom card.
- **The deck** (`deck.dfy`, module `Decks`).
  - Pure part: the sorted deck, the keystream step, and `NextCard` (the card `getNextCard`
    draws, with its joker retry).
  - Class `Deck`: it holds the key order `originalOrderCards` and the working order `cards`
    as sequence fields. Its methods change those fields in place as the Java methods do, each
    proved to produce the function of the old state that specifies it.
- **The rings** (`rings.dfy`, module `Rings`). `EncoderRing` and `DecoderRing` become one
  function `Cipher` with a `Direction` flag.
  - Encoding adds the card value modulo 26.
  - Decoding subtracts it, with the +78 offset of `DecoderRing`.
  - The remainder is Java's truncating `%`.
- **The formatter** (`format.dfy`, module `Formatting`).
  - `Format` is the reference definition of `formatMessage`: the ASCII letters, upper-cased,
    in blocks of five separated by single spaces, the last block padded with 'X'.
  - `FormatMessage` is the Java string-builder loop, proved to compute `Format`.
- **The cipher** (`solitaire.dfy`, module `Ciphers`).
  - `Transform` is the cipher loop over formatted text: spaces are copied, and each letter is
    shifted by the value of the next keystream card.
  - Class `Solitaire` holds the deck. Its methods `Encrypt`, `Decrypt` and `CipherMessage`
    format the message, restore the deck and run the loop, with the deck changing in place.
- **Shared definitions** (`prelude.dfy`, module `Prelude`): Java's `indexOf` and `%`, and the
  ASCII character classes.

Two places where the Java code admits no total result:

- **`formatMessage` on a message without letters** ends in `substring(1, 0)`, which throws.
  The model returns `None` on that path, before the deck is touched.
- **`getNextCard`** retries on a joker by calling itself, and nothing in the code bounds the
  recursion. The model gives each draw a `fuel` bound on the keystream steps it may take.
  - A draw that runs out of fuel returns `None`; the cipher then also returns `None`.
  - Termination is not claimed.
  - `NextCardFuelIrrelevant` shows that any draw that succeeds gives the same card and the
    same deck with any larger fuel.

Three behaviours of the code worth noting:

- `decrypt` formats its input again, exactly as `encrypt` does (`Solitaire.java:99` serves
  both).
- The decoder ring adds 78 before reducing modulo 26 (`DecoderRing.java:20`).
- An empty or letter-free message throws at `substring(1, 0)` (`Solitaire.java:71`) rather
  than yielding an empty string.

## Model

| member | source | states |
|---|---|---|
| Prelude.IndexOf | src/main/java/com/asolutions/samples/cryptography/ciphers/playingcards/Deck.java:77 | `indexOf` returns -1 exactly when the element is absent, and otherwise the position of its first occurrence |
| Prelude.JavaRem | src/main/java/com/asolutions/samples/cryptography/ciphers/crackerjackprizes/EncoderRing.java:20 | Java's `%`: the mathematical remainder for a non-negative dividend, and never positive for a negative one |
| Cards.SuitValue | src/main/java/com/asolutions/samples/cryptography/ciphers/playingcards/Suit.java:5-10 | the base is 53 exactly for the two joker suits; the four real bases are multiples of 13, at most 39 |
| Cards.RankValue | src/main/java/com/asolutions/samples/cryptography/ciphers/playingcards/Rank.java:5-18 | the value is 0 exactly for JOKER and never exceeds 13 |
| Cards.CardValue | src/main/java/com/asolutions/samples/cryptography/ciphers/playingcards/Card.java:36-38 | a joker has value 53; a regular card has a value in 1..52 that lies in its suit's band of 13 |
| Cards.SameCard | src/main/java/com/asolutions/samples/cryptography/ciphers/playingcards/Card.java:41-51 | `equals` holds exactly when suit and rank are both equal |
| Cards.CardOfValue | src/main/java/com/asolutions/samples/cryptography/ciphers/playingcards/Card.java:36-38 | for each value 1..52, a regular card with that value, at suit `(v-1)/13` and rank `(v-1)%13` |
| Cards.RankValuesInOrder | src/main/java/com/asolutions/samples/cryptography/ciphers/playingcards/Rank.java:4-18 | ACE..KING carry 1..13 in declaration order; JOKER, last, carries 0; every rank is listed |
| Cards.RankValueInjective | src/main/java/com/asolutions/samples/cryptography/ciphers/playingcards/Rank.java:5-18 | a rank value determines its rank |
| Cards.SuitValuesInOrder | src/main/java/com/asolutions/samples/cryptography/ciphers/playingcards/Suit.java:4-10 | the real suits carry 0, 13, 26 and 39 in declaration order; JOKER_A and JOKER_B both carry 53 yet differ |
| Cards.CardOfValueOfRegular | src/main/java/com/asolutions/samples/cryptography/ciphers/playingcards/Card.java:36-38 | every regular card is the card of its own value |
| Cards.RegularValuesAreDistinct | src/main/java/com/asolutions/samples/cryptography/ciphers/playingcards/Card.java:36-38 | over the 52 regular cards `getValue` is injective |
| Cards.JokersDifferButShareValue | src/main/java/com/asolutions/samples/cryptography/ciphers/playingcards/Card.java:36-51 | the jokers are unequal under `equals` and both have value 53 |
| Rearrangements.SwapWithNext | src/main/java/com/asolutions/samples/cryptography/ciphers/playingcards/Deck.java:82-85 | swapping a card with the next keeps the length |
| Rearrangements.LastToSecond | src/main/java/com/asolutions/samples/cryptography/ciphers/playingcards/Deck.java:78-80 | moving the bottom card below the top card keeps the length |
| Rearrangements.SwapWithNextFacts | src/main/java/com/asolutions/samples/cryptography/ciphers/playingcards/Deck.java:82-85 | the swap is a permutation that exchanges the two places and changes no other |
| Rearrangements.LastToSecondFacts | src/main/java/com/asolutions/samples/cryptography/ciphers/playingcards/Deck.java:78-80 | the move is a permutation: the top card stays, the bottom card is at index 1, and indices 1..n-2 shift to 2..n-1 |
| Rearrangements.MovedDownOnce | src/main/java/com/asolutions/samples/cryptography/ciphers/playingcards/Deck.java:75-87 | one `moveCardDown(card)` keeps the length and the card |
| Rearrangements.MovedDownOncePermutes | src/main/java/com/asolutions/samples/cryptography/ciphers/playingcards/Deck.java:75-87 | one move down is a permutation |
| Rearrangements.MovedDownOnceShape | src/main/java/com/asolutions/samples/cryptography/ciphers/playingcards/Deck.java:75-87 | a card that is not last swaps with the next card and nothing else moves; a last card lands at index 1 below the unmoved top card and the rest shift down one |
| Rearrangements.MovedDown | src/main/java/com/asolutions/samples/cryptography/ciphers/playingcards/Deck.java:63-67 | `moveCardDown(card, n)` is `n` single moves and keeps the length and the card |
| Rearrangements.MovedDownPermutes | src/main/java/com/asolutions/samples/cryptography/ciphers/playingcards/Deck.java:63-67 | `n` moves down are a permutation |
| Rearrangements.LandingStep | src/main/java/com/asolutions/samples/cryptography/ciphers/playingcards/Deck.java:78-85 | each further move takes the card one place down, from the last place to place 1 |
| Rearrangements.MovedDownOnceLands | src/main/java/com/asolutions/samples/cryptography/ciphers/playingcards/Deck.java:75-87 | in a deck without repeats, one move takes the card from `p` to `p+1`, or from the last place to 1, and keeps the deck free of repeats |
| Rearrangements.MovedDownLands | src/main/java/com/asolutions/samples/cryptography/ciphers/playingcards/Deck.java:63-67 | in a 54-card deck without repeats, `n` moves take the card to `Landing(p, n)` |
| Rearrangements.LandingMatchesTestFormula | src/test/java/com/asolutions/samples/cryptography/ciphers/playingcards/DeckTest.java:143-156 | for a start below 53 and up to 53 moves, the landing place is `(loc+n)%54`, plus one when that index is below `n`, as the move test computes |
| Rearrangements.RemoveLastInsertSecond | src/main/java/com/asolutions/samples/cryptography/ciphers/playingcards/Deck.java:79-80 | `remove` of the last card followed by `add(1, card)` is the wrap move |
| Rearrangements.SetTwiceSwaps | src/main/java/com/asolutions/samples/cryptography/ciphers/playingcards/Deck.java:83-85 | the two `set` calls are the swap with the next card |
| Rearrangements.CutBounds | src/main/java/com/asolutions/samples/cryptography/ciphers/playingcards/Deck.java:99-102 | the earlier and later of the two cut cards' positions, in order and in range |
| Rearrangements.ThreeBlocks | src/main/java/com/asolutions/samples/cryptography/ciphers/playingcards/Deck.java:104-109 | rearranging into the three blocks keeps the length |
| Rearrangements.ThreeBlocksAppended | src/main/java/com/asolutions/samples/cryptography/ciphers/playingcards/Deck.java:104-109 | the three `addAll` calls onto an empty list build `cards[hi+1..] ++ cards[lo..hi] ++ cards[..lo)` |
| Rearrangements.ThreeBlocksPermutes | src/main/java/com/asolutions/samples/cryptography/ciphers/playingcards/Deck.java:104-109 | the three blocks are a permutation |
| Rearrangements.ThreeBlocksMiddle | src/main/java/com/asolutions/samples/cryptography/ciphers/playingcards/Deck.java:106 | the middle block keeps its order, shifted to start at `n-1-hi` |
| Rearrangements.ThreeBlocksTwice | src/main/java/com/asolutions/samples/cryptography/ciphers/playingcards/Deck.java:104-109 | cutting again at the mirrored bounds restores the input order |
| Rearrangements.TripleCutOf | src/main/java/com/asolutions/samples/cryptography/ciphers/playingcards/Deck.java:97-110 | `tripleCut` keeps the length |
| Rearrangements.TripleCutPermutes | src/main/java/com/asolutions/samples/cryptography/ciphers/playingcards/Deck.java:97-110 | the triple cut is a permutation |
| Rearrangements.TripleCutSymmetric | src/test/java/com/asolutions/samples/cryptography/ciphers/playingcards/DeckTest.java:175-183 | `tripleCut(a, b)` equals `tripleCut(b, a)` |
| Rearrangements.TripleCutBounds | src/main/java/com/asolutions/samples/cryptography/ciphers/playingcards/Deck.java:97-110 | without repeats, after the cut the two cards bound the middle block at the mirrored positions `n-1-hi`, `n-1-lo` |
| Rearrangements.TripleCutInvolution | src/main/java/com/asolutions/samples/cryptography/ciphers/playingcards/Deck.java:97-110 | without repeats, cutting twice on the same two cards restores the order |
| Rearrangements.CutAboveLast | src/main/java/com/asolutions/samples/cryptography/ciphers/playingcards/Deck.java:117-126 | the cut keeps the length and the bottom card in place |
| Rearrangements.CutAboveLastAppended | src/main/java/com/asolutions/samples/cryptography/ciphers/playingcards/Deck.java:120-125 | the `addAll`/`add` calls build `cards[v..n-1) ++ cards[..v) ++ [last]` |
| Rearrangements.CutAboveLastPermutes | src/main/java/com/asolutions/samples/cryptography/ciphers/playingcards/Deck.java:117-126 | the cut is a permutation, and a cut by `n-1` (a joker at the bottom of a deck) changes nothing |
| Rearrangements.CutAboveLastRotates | src/main/java/com/asolutions/samples/cryptography/ciphers/playingcards/Deck.java:117-126 | the cards above the bottom one are rotated by `v`: position `k` receives the card from `(k+v) mod (n-1)` |
| Rings.AlphabetAt | src/main/java/com/asolutions/samples/cryptography/ciphers/crackerjackprizes/Ring.java:14 | the alphabet has 26 letters, the `k`-th being 'A' + k |
| Rings.LetterIndex | src/main/java/com/asolutions/samples/cryptography/ciphers/crackerjackprizes/Ring.java:14 | the index of an upper-case letter lies in 0..25 |
| Rings.AlphabetIndexOf | src/main/java/com/asolutions/samples/cryptography/ciphers/crackerjackprizes/Ring.java:14 | `alphabet.indexOf(c)` is `c - 'A'` for A..Z and the letter sits there; any other character gives -1 |
| Rings.AlphabetIndex | src/main/java/com/asolutions/samples/cryptography/ciphers/crackerjackprizes/EncoderRing.java:19 | the ring's `indexOf` lookup: `c - 'A'` for a letter, -1 otherwise |
| Rings.AlphabetLetter | src/main/java/com/asolutions/samples/cryptography/ciphers/crackerjackprizes/Ring.java:14 | the letter at index `i` is upper-case and has index `i` |
| Rings.AlphabetLetterIsCharAt | src/main/java/com/asolutions/samples/cryptography/ciphers/crackerjackprizes/Ring.java:14 | that letter is `alphabet.charAt(i)` |
| Rings.Cipher | src/main/java/com/asolutions/samples/cryptography/ciphers/crackerjackprizes/EncoderRing.java:18-21 | both rings give an upper-case letter whose index is Java's remainder of the offset by 26 |
| Rings.EncodeOffset | src/main/java/com/asolutions/samples/cryptography/ciphers/crackerjackprizes/EncoderRing.java:20 | the encoder reduces the letter index plus the card value |
| Rings.DecodeOffset | src/main/java/com/asolutions/samples/cryptography/ciphers/crackerjackprizes/DecoderRing.java:20 | the decoder reduces the letter index minus the card value plus 78 |
| Rings.EncodeRemainder | src/main/java/com/asolutions/samples/cryptography/ciphers/crackerjackprizes/EncoderRing.java:20 | for a non-negative value, Java's remainder in the encoder is the mathematical `(index + v) mod 26` |
| Rings.DecodeRemainder | src/main/java/com/asolutions/samples/cryptography/ciphers/crackerjackprizes/DecoderRing.java:20 | for a value up to 78, the decoder's argument is non-negative and reduces to `(index - v) mod 26` |
| Rings.ShiftBy78 | src/main/java/com/asolutions/samples/cryptography/ciphers/crackerjackprizes/DecoderRing.java:20 | adding 78, a multiple of 26, does not change the remainder of a non-negative result |
| Rings.EncodeShifts | src/main/java/com/asolutions/samples/cryptography/ciphers/crackerjackprizes/EncoderRing.java:18-21 | encoding a letter by `v >= 0` gives the letter `(index + v) mod 26` |
| Rings.DecodeShifts | src/main/java/com/asolutions/samples/cryptography/ciphers/crackerjackprizes/DecoderRing.java:18-21 | decoding a letter by `v <= 78` gives the letter `(index - v) mod 26` |
| Rings.LetterIndexInjective | src/main/java/com/asolutions/samples/cryptography/ciphers/crackerjackprizes/Ring.java:14 | a letter is determined by its alphabet index |
| Rings.DecodeAfter | src/main/java/com/asolutions/samples/cryptography/ciphers/crackerjackprizes/DecoderRing.java:20 | decoding a letter that lies `v` places after `c` gives back `c` |
| Rings.EncodeAfter | src/main/java/com/asolutions/samples/cryptography/ciphers/crackerjackprizes/EncoderRing.java:20 | encoding a letter that lies `v` places before `c` gives back `c` |
| Rings.DecodeUndoesEncode | src/main/java/com/asolutions/samples/cryptography/ciphers/crackerjackprizes/DecoderRing.java:18-21 | `decode(encode(c, v), v) == c` for every letter and every `v` in 0..78 |
| Rings.EncodeUndoesDecode | src/main/java/com/asolutions/samples/cryptography/ciphers/crackerjackprizes/EncoderRing.java:18-21 | `encode(decode(c, v), v) == c` for every letter and every `v` in 0..78 |
| Rings.Period | src/main/java/com/asolutions/samples/cryptography/ciphers/crackerjackprizes/EncoderRing.java:20 | shifting by `v` and by `v + 26` leaves the same remainder |
| Rings.EncodeIsPeriodic | src/main/java/com/asolutions/samples/cryptography/ciphers/crackerjackprizes/EncoderRing.java:20 | the values `v` and `v + 26` encode every letter alike |
| Rings.EncoderVectors | src/test/java/com/asolutions/samples/cryptography/ciphers/crackerjackprizes/EncoderRingTest.java:28-34 | 'A' encodes to K, U, E, O, Z under 10, 20, 30, 40, 25 |
| Rings.DecoderVectors | src/test/java/com/asolutions/samples/cryptography/ciphers/crackerjackprizes/DecoderRingTest.java:31-36 | 'A' decodes to Z, G, W, M under 1, 20, 30, 40 |
| Decks.SortedCards | src/main/java/com/asolutions/samples/cryptography/ciphers/playingcards/Deck.java:209-221 | the sorted deck has 54 cards |
| Decks.SortedCardsAt | src/main/java/com/asolutions/samples/cryptography/ciphers/playingcards/Deck.java:209-221 | position `k` of the sorted deck holds `SortedCardAt(k)`, with joker A at 52 and joker B at 53 |
| Decks.SortedCardsInValueOrder | src/main/java/com/asolutions/samples/cryptography/ciphers/playingcards/Deck.java:209-221 | places 0..51 hold regular cards of values 1..52, then joker A and joker B; no card repeats and every regular card is present |
| Decks.SortedCardOfSuitAndRank | src/main/java/com/asolutions/samples/cryptography/ciphers/playingcards/Deck.java:211-216 | the suit-outer, rank-inner loop order puts suit `si`, rank `ri` at place `13*si + ri` |
| Decks.DeckIsDistinct | src/main/java/com/asolutions/samples/cryptography/ciphers/playingcards/Deck.java:15-20 | any order of the 54 cards has 54 entries and no repeats |
| Decks.DeckHasJokers | src/main/java/com/asolutions/samples/cryptography/ciphers/playingcards/Deck.java:172-176 | both jokers the keystream step looks for are in every deck, so no `indexOf` returns -1 |
| Decks.DeckCard | src/main/java/com/asolutions/samples/cryptography/ciphers/playingcards/Deck.java:178-180 | a card of a deck is regular or a joker, its value is at most 53, and its rank is JOKER exactly when it is a joker |
| Decks.PermutedDeck | src/main/java/com/asolutions/samples/cryptography/ciphers/playingcards/Deck.java:153-157 | any permutation of a deck is a deck |
| Decks.Reversed | src/main/java/com/asolutions/samples/cryptography/ciphers/playingcards/Deck.java:144 | `Collections.reverse` is a permutation putting the card at `i` at `n-1-i` |
| Decks.BottomValueCutOf | src/main/java/com/asolutions/samples/cryptography/ciphers/playingcards/Deck.java:117-126 | `bottomValueCut` keeps the length and the bottom card; its requires is the `subList` bound |
| Decks.MovedDownOnceKeepsDeck | src/main/java/com/asolutions/samples/cryptography/ciphers/playingcards/Deck.java:75-87 | one move down turns a deck into a deck |
| Decks.MovedDownKeepsDeck | src/main/java/com/asolutions/samples/cryptography/ciphers/playingcards/Deck.java:63-67 | `n` moves down turn a deck into a deck |
| Decks.TripleCutKeepsDeck | src/main/java/com/asolutions/samples/cryptography/ciphers/playingcards/Deck.java:97-110 | the triple cut turns a deck into a deck |
| Decks.BottomValueCutKeepsDeck | src/main/java/com/asolutions/samples/cryptography/ciphers/playingcards/Deck.java:117-126 | a deck's bottom card has value at most 53, so the cut is defined, and its result is a deck |
| Decks.KeystreamStep | src/main/java/com/asolutions/samples/cryptography/ciphers/playingcards/Deck.java:172-177 | the four manipulations of one keystream step turn a deck into a deck |
| Decks.KeystreamStepStages | src/main/java/com/asolutions/samples/cryptography/ciphers/playingcards/Deck.java:172-177 | every intermediate order is a deck holding the card the next stage looks for, and the step is their composition |
| Decks.SelectedCard | src/main/java/com/asolutions/samples/cryptography/ciphers/playingcards/Deck.java:178-180 | the card at the top card's value is in range and is regular or a joker, of JOKER rank exactly when a joker |
| Decks.NextCard | src/main/java/com/asolutions/samples/cryptography/ciphers/playingcards/Deck.java:171-186 | a draw leaves a deck, and a card it returns is regular with value in 1..52 |
| Decks.NextCardOutOfFuel | src/main/java/com/asolutions/samples/cryptography/ciphers/playingcards/Deck.java:171-186 | without fuel nothing is drawn and the deck is unchanged |
| Decks.NextCardUnfolds | src/main/java/com/asolutions/samples/cryptography/ciphers/playingcards/Deck.java:171-186 | with fuel, a draw is one step, then the selected card, or a fresh draw when it is a joker |
| Decks.NextCardFuelIrrelevant | src/main/java/com/asolutions/samples/cryptography/ciphers/playingcards/Deck.java:180-184 | a draw that succeeds gives the same card and deck with any larger fuel |
| Decks.RetriedDrawFuelIrrelevant | src/main/java/com/asolutions/samples/cryptography/ciphers/playingcards/Deck.java:182-184 | the same, for a draw whose first selected card was a joker |
| Decks.Deck.constructor | src/main/java/com/asolutions/samples/cryptography/ciphers/playingcards/Deck.java:26-28 | `new Deck()` holds the sorted deck in both lists |
| Decks.Deck.FromOrder | src/main/java/com/asolutions/samples/cryptography/ciphers/playingcards/Deck.java:35-38 | the private constructor starts both lists from the given order |
| Decks.Deck.MoveCardDown | src/main/java/com/asolutions/samples/cryptography/ciphers/playingcards/Deck.java:75-87 | the `remove`/`add` or two `set` calls leave `cards` equal to `MovedDownOnce(old cards)`; the key order is untouched |
| Decks.Deck.MoveCardDownBy | src/main/java/com/asolutions/samples/cryptography/ciphers/playingcards/Deck.java:63-67 | the counted loop leaves `MovedDown(old cards, card, n)` for `n > 0`, and for `n <= 0` leaves any list unchanged whatever the card; the key order is untouched |
| Decks.Deck.TripleCut | src/main/java/com/asolutions/samples/cryptography/ciphers/playingcards/Deck.java:97-110 | the cut leaves `TripleCutOf(old cards, a, b)`; the key order is untouched |
| Decks.Deck.BottomValueCut | src/main/java/com/asolutions/samples/cryptography/ciphers/playingcards/Deck.java:117-126 | the cut leaves `BottomValueCutOf(old cards)`; the key order is untouched |
| Decks.Deck.CountCards | src/main/java/com/asolutions/samples/cryptography/ciphers/playingcards/Deck.java:132-134 | the count is the number of cards, 54 for a deck |
| Decks.Deck.CreateOrderedDeckOfCards | src/main/java/com/asolutions/samples/cryptography/ciphers/playingcards/Deck.java:209-221 | the nested suit/rank loops with the skip test, then the two jokers, build exactly the sorted deck |
| Decks.Deck.Sort | src/main/java/com/asolutions/samples/cryptography/ciphers/playingcards/Deck.java:141-148 | `sort(true)` gives the sorted deck and `sort(false)` its reverse; the key order becomes the new order |
| Decks.Deck.Shuffle | src/main/java/com/asolutions/samples/cryptography/ciphers/playingcards/Deck.java:153-157 | for a given permutation of the cards, both lists become that permutation |
| Decks.Deck.GetNextCard | src/main/java/com/asolutions/samples/cryptography/ciphers/playingcards/Deck.java:171-186 | the card returned and the new `cards` are exactly those `NextCard` gives for the old cards; the key order is untouched |
| Decks.Deck.Restore | src/main/java/com/asolutions/samples/cryptography/ciphers/playingcards/Deck.java:192-195 | `cards` becomes the unchanged key order |
| Decks.Deck.Copy | src/main/java/com/asolutions/samples/cryptography/ciphers/playingcards/Deck.java:201-203 | a fresh deck whose two lists both hold this deck's key order, not its current cards |
| Formatting.Upper | src/main/java/com/asolutions/samples/cryptography/ciphers/Solitaire.java:58 | `toUpperCase` of an ASCII letter is an upper-case letter: upper-case letters are unchanged and a lower-case letter becomes the upper-case letter at the same alphabet position |
| Formatting.Scrub | src/main/java/com/asolutions/samples/cryptography/ciphers/Solitaire.java:58 | the scrubbed message is no longer than the input and consists of upper-case letters |
| Formatting.ScrubAppend | src/main/java/com/asolutions/samples/cryptography/ciphers/Solitaire.java:58 | scrubbing a concatenation scrubs each part |
| Formatting.ScrubKeepsUpper | src/main/java/com/asolutions/samples/cryptography/ciphers/Solitaire.java:58 | a string of upper-case letters is kept whole |
| Formatting.ScrubDropsNonLetters | src/main/java/com/asolutions/samples/cryptography/ciphers/Solitaire.java:58 | a string without ASCII letters is removed entirely |
| Formatting.LastBlock | src/main/java/com/asolutions/samples/cryptography/ciphers/Solitaire.java:65-66 | the last block always has five characters |
| Formatting.LastBlockAt | src/main/java/com/asolutions/samples/cryptography/ciphers/Solitaire.java:65-69 | the last block is the remaining letters, then 'X' |
| Formatting.BlocksAt | src/main/java/com/asolutions/samples/cryptography/ciphers/Solitaire.java:59-71 | `L >= 1` letters make `6*ceil(L/5) - 1` characters: a space at every sixth place, otherwise the next letter, 'X' past the end |
| Formatting.BlocksFormatted | src/main/java/com/asolutions/samples/cryptography/ciphers/Solitaire.java:59-71 | blocks of upper-case letters are formatted text |
| Formatting.ScrubBlocks | src/main/java/com/asolutions/samples/cryptography/ciphers/Solitaire.java:58-71 | scrubbing formatted letters removes only the spaces |
| Formatting.BlocksOfPadded | src/main/java/com/asolutions/samples/cryptography/ciphers/Solitaire.java:59-71 | padded letters fill whole blocks, so formatting them adds no further block |
| Formatting.Format | src/main/java/com/asolutions/samples/cryptography/ciphers/Solitaire.java:57-72 | no result exactly when the message has no ASCII letters; otherwise formatted text |
| Formatting.FormatIdempotent | src/main/java/com/asolutions/samples/cryptography/ciphers/Solitaire.java:57-72 | `formatMessage(formatMessage(x)) == formatMessage(x)` |
| Formatting.BlocksOfFormatted | src/main/java/com/asolutions/samples/cryptography/ciphers/Solitaire.java:57-72 | any formatted text is the blocks of its own letters |
| Formatting.FormattedIsFixed | src/main/java/com/asolutions/samples/cryptography/ciphers/Solitaire.java:57-72 | formatting any formatted text gives it back unchanged |
| Formatting.FormatKeepsLetters | src/main/java/com/asolutions/samples/cryptography/ciphers/Solitaire.java:58-71 | the output keeps exactly the message's letters, upper-cased and in order, in `ceil(L/5)` blocks padded with 'X' |
| Formatting.BuilderAppend | src/main/java/com/asolutions/samples/cryptography/ciphers/Solitaire.java:61-70 | one loop step, a space when `i % 5 == 0` and then the letter or 'X', extends the builder in shape |
| Formatting.BuilderEnd | src/main/java/com/asolutions/samples/cryptography/ciphers/Solitaire.java:71 | `length - length % 6` is six characters per block |
| Formatting.BuiltAtNext | src/main/java/com/asolutions/samples/cryptography/ciphers/Solitaire.java:71 | dropping the leading space shifts the builder onto the block layout |
| Formatting.BuiltIsBlocks | src/main/java/com/asolutions/samples/cryptography/ciphers/Solitaire.java:71 | the final `substring` is the blocks, and its end bound is below 1 exactly when there are no letters |
| Formatting.FormatMessage | src/main/java/com/asolutions/samples/cryptography/ciphers/Solitaire.java:57-72 | the builder loop and `substring` compute `Format`, with no result when `substring(1, 0)` would throw |
| Ciphers.FormattedIsLettersAndSpaces | src/main/java/com/asolutions/samples/cryptography/ciphers/Solitaire.java:99-103 | formatted text holds only letters and spaces, so the rings only receive A..Z |
| Ciphers.Shift | src/main/java/com/asolutions/samples/cryptography/ciphers/Solitaire.java:103 | the ring applied to a letter and a drawn card gives an upper-case letter |
| Ciphers.ShiftUndone | src/main/java/com/asolutions/samples/cryptography/ciphers/Solitaire.java:103 | the other ring with the same card gives the letter back, in both directions |
| Ciphers.Transform | src/main/java/com/asolutions/samples/cryptography/ciphers/Solitaire.java:101-105 | the cipher loop leaves a deck |
| Ciphers.LetterCount | src/main/java/com/asolutions/samples/cryptography/ciphers/Solitaire.java:102-103 | the number of draws is at most the text length |
| Ciphers.Drawn | src/main/java/com/asolutions/samples/cryptography/ciphers/Solitaire.java:103 | any number of successive draws leaves a deck |
| Ciphers.TransformFirst | src/main/java/com/asolutions/samples/cryptography/ciphers/Solitaire.java:102-104 | a space is copied without a draw; a letter draws a card and is shifted by it, or the run stops when the draw fails |
| Ciphers.TransformLayout | src/main/java/com/asolutions/samples/cryptography/ciphers/Solitaire.java:101-105 | the output is as long as the input, with spaces at the same places and letters elsewhere, and exactly one draw per letter |
| Ciphers.TransformUndone | src/main/java/com/asolutions/samples/cryptography/ciphers/Solitaire.java:101-105 | the loop in the other direction from the same deck gives the input back and leaves the same deck |
| Ciphers.CipherRun | src/main/java/com/asolutions/samples/cryptography/ciphers/Solitaire.java:98-106 | no result exactly when formatting throws; otherwise the loop over the formatted message from the key order |
| Ciphers.CipherText | src/main/java/com/asolutions/samples/cryptography/ciphers/Solitaire.java:98-106 | no text when the message has no letters |
| Ciphers.CipherTextFormatted | src/main/java/com/asolutions/samples/cryptography/ciphers/Solitaire.java:98-106 | the output is formatted text with the formatted message's length and space positions |
| Ciphers.RoundTrip | src/test/java/com/asolutions/samples/cryptography/ciphers/SolitaireAcceptanceTest.java:88-92 | decrypting with the same key order gives the formatted message back, and likewise the other way round |
| Ciphers.TransformStep | src/main/java/com/asolutions/samples/cryptography/ciphers/Solitaire.java:102-104 | one iteration of the loop at index `i`: the space case and the letter case |
| Ciphers.TransformDone | src/main/java/com/asolutions/samples/cryptography/ciphers/Solitaire.java:105 | once the text is used up, the loop has nothing more to add and draws nothing |
| Ciphers.Solitaire.constructor | src/main/java/com/asolutions/samples/cryptography/ciphers/Solitaire.java:45-49 | the cipher uses the given deck |
| Ciphers.Solitaire.Encrypt | src/main/java/com/asolutions/samples/cryptography/ciphers/Solitaire.java:79-81 | the result is the forward cipher of the message from the deck's key order; the working order ends one draw per letter past the key order, or is untouched when formatting throws; the key order is untouched |
| Ciphers.Solitaire.Decrypt | src/main/java/com/asolutions/samples/cryptography/ciphers/Solitaire.java:88-90 | the result is the backward cipher of the reformatted message from the key order; the working order ends one draw per letter past the key order, or is untouched when formatting throws; the key order is untouched |
| Ciphers.Solitaire.CipherMessage | src/main/java/com/asolutions/samples/cryptography/ciphers/Solitaire.java:98-106 | format, `restore`, then the loop: result and final deck are `CipherRun` of the key order, and the deck is untouched when formatting throws |
| Ciphers.Communicate | src/test/java/com/asolutions/samples/cryptography/ciphers/SolitaireAcceptanceTest.java:88-92 | for two ciphers whose decks share a key order, `b.decrypt(a.encrypt(formatMessage(x))) == formatMessage(x)` |
| Ciphers.EncryptTwice | src/main/java/com/asolutions/samples/cryptography/ciphers/Solitaire.java:99-100 | because every call restores the deck first, encrypting the same message twice on one cipher gives the same result, whatever the first call left in the deck |

## Left out

- `Solitaire()`, the no-argument constructor: it shuffles with `Collections.shuffle`, which is
  random. `Deck.Shuffle` takes the permutation as a parameter instead, and the statistical
  shuffle test is not a property.
- The rings passed to the three-argument `Solitaire` constructor are the two concrete rings.
  They appear as the `Direction` argument, not as objects, so no other `Ring` implementation
  is modelled.
- `Deck.equals`, `Deck.hashCode`, `Card.hashCode` and `Card.toString` are object plumbing.
  Datatype equality takes their place; `SameCard` models `Card.equals`.
- `Card.setSuit` and `Card.setRank` are left out because cards are immutable values here.
  The stored `value` field of `Card` is never read, so it is left out too.
- Serialization of `Card` is left out.
- `getCards`/`getOriginalOrderCards` are plain field reads and are not modelled separately.
- Termination of `getNextCard`'s joker retry: the model bounds each draw with `fuel`, and a
  draw that runs out returns `None`.
- Decks.Deck.GetNextCard: requires that `cards` is a deck (the 54 cards in some order). The
  Java method has no such precondition; on other lists it may throw.
- The keystream vector (4, 49, 10, 24, 8, 51, 44, 6, 4, 33 from a sorted deck) and the three
  ciphertext vectors are not proved. Evaluating ten keystream steps on a concrete 54-card
  deck is beyond what the verifier evaluates symbolically.
- `toUpperCase` uses the JVM's default locale. The model assumes a locale whose case mapping
  is plain ASCII, where 'a'..'z' map to 'A'..'Z'. Under a Turkish locale, for example, 'i'
  becomes 'İ' (U+0130), for which the ring's `indexOf` returns -1; that case is not modelled.
- Integer overflow is not modelled. Card values and ring offsets stay below 200. The loop
  counter, `chars.length + 4` and `sb.length()` in `formatMessage` grow with the message and
  are unbounded in the model; the Java `int`s would overflow only near 2^31 characters.
