/** The Solitaire cipher itself: format the message, put the deck back in its starting
    order, then replace every letter by the letter shifted by the value of the next
    keystream card, copying the spaces. Encrypting shifts forwards, decrypting backwards. */
module Ciphers {
  import opened Prelude
  import opened Cards
  import opened Rings
  import opened Decks
  import opened Formatting

  /** Upper-case letters and spaces: the only characters the formatter produces. */
  predicate IsLettersAndSpaces(t: string) {
    forall k :: 0 <= k < |t| ==> t[k] == ' ' || IsUpperLetter(t[k])
  }

  /** Formatted text consists of letters and spaces. */
  lemma FormattedIsLettersAndSpaces(t: string)
    requires IsFormatted(t)
    ensures IsLettersAndSpaces(t)
  {
    forall k | 0 <= k < |t| ensures t[k] == ' ' || IsUpperLetter(t[k]) {
      if k % 6 == 5 {
        assert t[k] == ' ';
      }
    }
  }

  /** `ring.cipher(character, card)` for a drawn card, whose value lies in 1..52. */
  function Shift(dir: Direction, c: char, card: Card): (r: char)
    requires IsUpperLetter(c) && 1 <= CardValue(card) <= 52
    ensures IsUpperLetter(r)
  {
    var v := CardValue(card);
    if dir == Encode then
      EncodeShifts(c, v);
      Cipher(Encode, c, v)
    else
      DecodeShifts(c, v);
      Cipher(Decode, c, v)
  }

  /** The direction that undoes `dir`. */
  function Reverse(dir: Direction): Direction {
    if dir == Encode then Decode else Encode
  }

  /** Shifting back with the same card restores the letter, in either direction. */
  lemma ShiftUndone(dir: Direction, c: char, card: Card)
    requires IsUpperLetter(c) && 1 <= CardValue(card) <= 52
    ensures Shift(Reverse(dir), Shift(dir, c, card), card) == c
  {
    var v := CardValue(card);
    if dir == Encode {
      DecodeUndoesEncode(c, v);
    } else {
      EncodeUndoesDecode(c, v);
    }
  }

  /** The outcome of the cipher loop: the text produced (none when a draw ran out of fuel)
      and the deck it leaves. */
  datatype Run = Run(text: Option<string>, deck: seq<Card>)

  /** A character in front of the produced text. */
  function Prepend(c: char, r: Run): Run {
    Run(if r.text.None? then None else Some([c] + r.text.value), r.deck)
  }

  /** Text already produced in front of a run. */
  function PrefixedBy(p: string, r: Run): Run {
    Run(if r.text.None? then None else Some(p + r.text.value), r.deck)
  }

  /** The cipher loop over the text `text` from the deck `s`: a space is copied without a
      draw, a letter draws the next keystream card and is shifted by its value. */
  function Transform(dir: Direction, s: seq<Card>, text: string, fuel: nat): (r: Run)
    requires IsDeck(s) && IsLettersAndSpaces(text)
    ensures IsDeck(r.deck)
    decreases |text|
  {
    hide NextCard, SortedCards;
    if text == [] then Run(Some([]), s)
    else if text[0] == ' ' then Prepend(' ', Transform(dir, s, text[1..], fuel))
    else
      var d := NextCard(s, fuel);
      if d.card.None? then Run(None, d.deck)
      else Prepend(Shift(dir, text[0], d.card.value), Transform(dir, d.deck, text[1..], fuel))
  }

  /** The number of letters of a text: one keystream card is drawn for each. */
  function LetterCount(text: string): (n: nat)
    ensures n <= |text|
  {
    if text == [] then 0 else (if text[0] == ' ' then 0 else 1) + LetterCount(text[1..])
  }

  /** The deck after `n` draws from `s`. */
  function Drawn(s: seq<Card>, n: nat, fuel: nat): (r: seq<Card>)
    requires IsDeck(s)
    ensures IsDeck(r)
    decreases n
  {
    hide NextCard, SortedCards;
    if n == 0 then s else Drawn(NextCard(s, fuel).deck, n - 1, fuel)
  }

  /** The first character of the loop: a space is copied, a letter is shifted by the card
      drawn, and the loop goes on with the rest. */
  lemma TransformFirst(dir: Direction, s: seq<Card>, text: string, fuel: nat)
    requires IsDeck(s) && IsLettersAndSpaces(text) && text != []
    ensures IsLettersAndSpaces(text[1..])
    ensures text[0] == ' ' ==> Transform(dir, s, text, fuel) == Prepend(' ', Transform(dir, s, text[1..], fuel))
    ensures text[0] != ' ' ==> var d := NextCard(s, fuel);
      Transform(dir, s, text, fuel) ==
        if d.card.None? then Run(None, d.deck)
        else Prepend(Shift(dir, text[0], d.card.value), Transform(dir, d.deck, text[1..], fuel))
  {
    hide NextCard, SortedCards, Shift;
    assert forall k :: 0 <= k < |text[1..]| ==> text[1..][k] == text[k + 1];
  }

  /** The cipher loop keeps the layout: the output is as long as the text, has its spaces
      in the same places and a letter everywhere else, and leaves the deck after one draw
      per letter. */
  lemma {:induction false} TransformLayout(dir: Direction, s: seq<Card>, text: string, fuel: nat)
    requires IsDeck(s) && IsLettersAndSpaces(text)
    requires Transform(dir, s, text, fuel).text.Some?
    ensures var r := Transform(dir, s, text, fuel);
      |r.text.value| == |text| &&
      (forall k :: 0 <= k < |text| ==>
        if text[k] == ' ' then r.text.value[k] == ' ' else IsUpperLetter(r.text.value[k])) &&
      r.deck == Drawn(s, LetterCount(text), fuel)
    decreases |text|
  {
    hide Transform, NextCard, SortedCards, Shift;
    if text == [] {
      TransformDone(dir, s, fuel);
    } else {
      TransformFirst(dir, s, text, fuel);
      var t := text[1..];
      var s' := if text[0] == ' ' then s else NextCard(s, fuel).deck;
      TransformLayout(dir, s', t, fuel);
      var r := Transform(dir, s, text, fuel);
      var rest := Transform(dir, s', t, fuel);
      assert r.text.value == [r.text.value[0]] + rest.text.value;
      forall k | 0 < k < |text|
        ensures if text[k] == ' ' then r.text.value[k] == ' ' else IsUpperLetter(r.text.value[k])
      {
        assert text[k] == t[k - 1] && r.text.value[k] == rest.text.value[k - 1];
      }
    }
  }

  /** Running the loop the other way with the same starting deck undoes it: the same cards
      are drawn at the same places, since the spaces stay where they were, and each letter
      is shifted back. */
  lemma {:induction false} TransformUndone(dir: Direction, s: seq<Card>, text: string, fuel: nat)
    requires IsDeck(s) && IsLettersAndSpaces(text)
    requires Transform(dir, s, text, fuel).text.Some?
    ensures var r := Transform(dir, s, text, fuel);
      IsLettersAndSpaces(r.text.value) &&
      Transform(Reverse(dir), s, r.text.value, fuel) == Run(Some(text), r.deck)
    decreases |text|
  {
    hide Transform, NextCard, SortedCards, Shift;
    var r := Transform(dir, s, text, fuel);
    if text == [] {
      TransformDone(dir, s, fuel);
      TransformDone(Reverse(dir), s, fuel);
    } else {
      TransformFirst(dir, s, text, fuel);
      var t := text[1..];
      var d := NextCard(s, fuel);
      var s' := if text[0] == ' ' then s else d.deck;
      var rest := Transform(dir, s', t, fuel);
      TransformUndone(dir, s', t, fuel);
      var x := if text[0] == ' ' then ' ' else Shift(dir, text[0], d.card.value);
      var e := r.text.value;
      assert r == Prepend(x, rest);
      assert e == [x] + rest.text.value;
      assert IsLettersAndSpaces(e) by {
        forall k | 0 < k < |e| ensures e[k] == ' ' || IsUpperLetter(e[k]) {
          assert e[k] == rest.text.value[k - 1];
        }
      }
      assert e[0] == x && e[1..] == rest.text.value;
      TransformFirst(Reverse(dir), s, e, fuel);
      if text[0] != ' ' {
        ShiftUndone(dir, text[0], d.card.value);
      }
      assert text == [text[0]] + t;
    }
  }

  /** What `cipher` does for a deck whose starting order is `key`: nothing when the message
      has no letters (formatting throws before the deck is touched), otherwise the loop over
      the formatted message from the starting order. */
  function CipherRun(dir: Direction, key: seq<Card>, message: string, fuel: nat): (r: Option<Run>)
    requires IsDeck(key)
    ensures r.None? <==> Format(message).None?
  {
    match Format(message)
    case None => None
    case Some(f) =>
      FormattedIsLettersAndSpaces(f);
      Some(Transform(dir, key, f, fuel))
  }

  /** The text `cipher` returns. */
  function CipherText(dir: Direction, key: seq<Card>, message: string, fuel: nat): (r: Option<string>)
    requires IsDeck(key)
    ensures Format(message).None? ==> r.None?
  {
    var run := CipherRun(dir, key, message, fuel);
    if run.None? then None else run.value.text
  }

  /** The ciphertext is formatted text again, in the layout of the formatted message. */
  lemma CipherTextFormatted(dir: Direction, key: seq<Card>, message: string, fuel: nat)
    requires IsDeck(key) && CipherText(dir, key, message, fuel).Some?
    ensures var f := Format(message).value;
      var e := CipherText(dir, key, message, fuel).value;
      IsFormatted(e) && |e| == |f| && forall k :: 0 <= k < |f| ==> (e[k] == ' ' <==> f[k] == ' ')
  {
    var f := Format(message).value;
    FormattedIsLettersAndSpaces(f);
    TransformLayout(dir, key, f, fuel);
  }

  /** Decrypting a ciphertext with a deck of the same starting order gives back the
      formatted message; the same holds with the two directions swapped. */
  lemma RoundTrip(dir: Direction, key: seq<Card>, message: string, fuel: nat)
    requires IsDeck(key) && CipherText(dir, key, message, fuel).Some?
    ensures CipherText(Reverse(dir), key, CipherText(dir, key, message, fuel).value, fuel) == Format(message)
  {
    var f := Format(message).value;
    var e := CipherText(dir, key, message, fuel).value;
    CipherTextFormatted(dir, key, message, fuel);
    FormattedIsFixed(e);
    FormattedIsLettersAndSpaces(f);
    TransformUndone(dir, key, f, fuel);
  }

  /** A character of text in front of the rest of the loop. */
  lemma TransformStep(dir: Direction, s: seq<Card>, text: string, i: int, fuel: nat)
    requires IsDeck(s) && IsLettersAndSpaces(text) && 0 <= i < |text|
    ensures IsLettersAndSpaces(text[i..]) && IsLettersAndSpaces(text[i + 1..])
    ensures text[i] == ' ' ==> Transform(dir, s, text[i..], fuel) == Prepend(' ', Transform(dir, s, text[i + 1..], fuel))
    ensures text[i] != ' ' ==> var d := NextCard(s, fuel);
      Transform(dir, s, text[i..], fuel) ==
        if d.card.None? then Run(None, d.deck)
        else Prepend(Shift(dir, text[i], d.card.value), Transform(dir, d.deck, text[i + 1..], fuel))
  {
    assert text[i..][0] == text[i] && text[i..][1..] == text[i + 1..];
  }

  /** The loop over no text produces nothing and draws nothing. */
  lemma TransformDone(dir: Direction, s: seq<Card>, fuel: nat)
    requires IsDeck(s)
    ensures Transform(dir, s, [], fuel) == Run(Some([]), s)
  {
  }

  /** Before any text is produced, a run is unchanged. */
  lemma PrefixedByNothing(r: Run)
    ensures PrefixedBy([], r) == r
  {
    if r.text.Some? {
      assert [] + r.text.value == r.text.value;
    }
  }

  /** Text produced so far can grow by one character. */
  lemma PrefixedByPrepend(p: string, c: char, r: Run)
    ensures PrefixedBy(p, Prepend(c, r)) == PrefixedBy(p + [c], r)
  {
    if r.text.Some? {
      assert p + ([c] + r.text.value) == (p + [c]) + r.text.value;
    }
  }

  /** A Solitaire cipher over one deck. The encoder and decoder rings the Java class
      holds are the two directions of `Shift`. */
  class Solitaire {
    var deck: Deck

    /** `Solitaire(deck, decoderRing, encoderRing)` with the two concrete rings. */
    constructor (deck: Deck)
      ensures this.deck == deck
    {
      this.deck := deck;
    }

    /** `encrypt`: the cipher shifting forwards. */
    method Encrypt(plainTextMessage: string, fuel: nat) returns (r: Option<string>)
      requires deck.Valid()
      modifies deck
      ensures r == CipherText(Encode, old(deck.originalOrderCards), plainTextMessage, fuel)
      ensures Format(plainTextMessage).None? ==> deck.cards == old(deck.cards)
      ensures Format(plainTextMessage).Some? ==>
        deck.cards == CipherRun(Encode, old(deck.originalOrderCards), plainTextMessage, fuel).value.deck
      ensures deck.originalOrderCards == old(deck.originalOrderCards) && deck.Valid()
    {
      r := CipherMessage(plainTextMessage, Encode, fuel);
    }

    /** `decrypt`: the cipher shifting backwards; the message is formatted first, as in
        encryption. */
    method Decrypt(encryptedMessage: string, fuel: nat) returns (r: Option<string>)
      requires deck.Valid()
      modifies deck
      ensures r == CipherText(Decode, old(deck.originalOrderCards), encryptedMessage, fuel)
      ensures Format(encryptedMessage).None? ==> deck.cards == old(deck.cards)
      ensures Format(encryptedMessage).Some? ==>
        deck.cards == CipherRun(Decode, old(deck.originalOrderCards), encryptedMessage, fuel).value.deck
      ensures deck.originalOrderCards == old(deck.originalOrderCards) && deck.Valid()
    {
      r := CipherMessage(encryptedMessage, Decode, fuel);
    }

    /** `cipher`: format, restore the deck, then shift each letter by the next keystream
        card. The result depends only on the deck's starting order and the message; the
        deck is left after one draw per letter. */
    method CipherMessage(message: string, dir: Direction, fuel: nat) returns (r: Option<string>)
      requires deck.Valid()
      modifies deck
      ensures r == CipherText(dir, old(deck.originalOrderCards), message, fuel)
      ensures Format(message).None? ==> deck.cards == old(deck.cards)
      ensures Format(message).Some? ==>
        deck.cards == CipherRun(dir, old(deck.originalOrderCards), message, fuel).value.deck
      ensures deck.originalOrderCards == old(deck.originalOrderCards) && deck.Valid()
    {
      hide Transform, NextCard, SortedCards, Shift, Format, Drawn, KeystreamStep;
      var scrubbedMessage := FormatMessage(message);
      if scrubbedMessage.None? {
        return None;
      }
      var text := scrubbedMessage.value;
      FormattedIsLettersAndSpaces(text);
      deck.Restore();
      ghost var key := deck.cards;
      assert CipherText(dir, key, message, fuel) == Transform(dir, key, text, fuel).text;
      var sb: string := "";
      var i := 0;
      assert text[0..] == text;
      PrefixedByNothing(Transform(dir, key, text, fuel));
      while i < |text|
        invariant 0 <= i <= |text|
        invariant IsDeck(deck.cards) && deck.originalOrderCards == key
        invariant IsLettersAndSpaces(text[i..])
        invariant Transform(dir, key, text, fuel) == PrefixedBy(sb, Transform(dir, deck.cards, text[i..], fuel))
      {
        var character := text[i];
        TransformStep(dir, deck.cards, text, i, fuel);
        if character == ' ' {
          PrefixedByPrepend(sb, ' ', Transform(dir, deck.cards, text[i + 1..], fuel));
          sb := sb + [' '];
        } else {
          var card := deck.GetNextCard(fuel);
          if card.None? {
            // Out of fuel: `getNextCard` would still be retrying.
            return None;
          }
          var shifted := Shift(dir, character, card.value);
          PrefixedByPrepend(sb, shifted, Transform(dir, deck.cards, text[i + 1..], fuel));
          sb := sb + [shifted];
        }
        i := i + 1;
      }
      assert text[i..] == [];
      TransformDone(dir, deck.cards, fuel);
      assert sb + [] == sb;
      r := Some(sb);
    }
  }

  /** One exchange between two ciphers whose decks share a starting order (one a `copy` of
      the other): the formatted message, encrypted by `a`, decrypts under `b` to the
      formatted message again. */
  method Communicate(a: Solitaire, b: Solitaire, message: string, fuel: nat)
    returns (expected: Option<string>, encrypted: Option<string>, decrypted: Option<string>)
    requires a.deck.Valid() && b.deck.Valid()
    requires a.deck.originalOrderCards == b.deck.originalOrderCards
    modifies a.deck, b.deck
    ensures expected == Format(message)
    ensures encrypted.Some? ==> decrypted == expected
  {
    encrypted, decrypted := None, None;
    expected := FormatMessage(message);
    if expected.None? {
      return;
    }
    ghost var key := a.deck.originalOrderCards;
    encrypted := a.Encrypt(expected.value, fuel);
    if encrypted.None? {
      return;
    }
    decrypted := b.Decrypt(encrypted.value, fuel);
    FormatIdempotent(message);
    RoundTrip(Encode, key, expected.value, fuel);
  }

  /** Two calls on the same cipher in a row give the same output, whatever the first one
      left in the deck, because each call restores the deck first. */
  method EncryptTwice(a: Solitaire, message: string, fuel: nat) returns (first: Option<string>, second: Option<string>)
    requires a.deck.Valid()
    modifies a.deck
    ensures first == second
  {
    first := a.Encrypt(message, fuel);
    second := a.Encrypt(message, fuel);
  }
}
