/** The encoder and decoder rings: a letter shifted around the 26-letter alphabet by a
    card value, forwards to encode and backwards to decode. The two ring classes of the
    Java code differ only in that direction, so one function takes it as a flag. */
module Rings {
  import opened Prelude

  /** `Ring.alphabet`. */
  const Alphabet: string := "ABCDEFGHIJKLMNOPQRSTUVWXYZ"

  datatype Direction = Encode | Decode

  /** The alphabet holds the letters 'A' + 0 .. 'A' + 25 in order. */
  lemma AlphabetAt(k: int)
    requires 0 <= k < 26
    ensures |Alphabet| == 26 && Alphabet[k] as int == 'A' as int + k
  {
  }

  /** Position of an upper-case letter in the alphabet. */
  function LetterIndex(c: char): (i: nat)
    requires IsUpperLetter(c)
    ensures i < 26
  {
    c as int - 'A' as int
  }

  /** The alphabet holds A..Z in order: `indexOf` of a letter is its distance from 'A', the
      letter at that position is the letter itself, and anything else is not found. */
  lemma {:induction false} AlphabetIndexOf(c: char)
    ensures |Alphabet| == 26
    ensures IsUpperLetter(c) ==> IndexOf(Alphabet, c) == LetterIndex(c) && Alphabet[LetterIndex(c)] == c
    ensures !IsUpperLetter(c) ==> IndexOf(Alphabet, c) == -1
  {
    forall k | 0 <= k < 26 {
      AlphabetAt(k);
    }
    if IsUpperLetter(c) {
      assert Distinct(Alphabet);
      assert Alphabet[LetterIndex(c)] == c;
      IndexOfUnique(Alphabet, c, LetterIndex(c));
    } else {
      assert c !in Alphabet;
    }
  }

  /** `alphabet.indexOf(c)`: for a letter its distance from 'A', for anything else -1. */
  function AlphabetIndex(c: char): (i: int)
    ensures IsUpperLetter(c) ==> i == LetterIndex(c)
    ensures !IsUpperLetter(c) ==> i == -1
  {
    AlphabetIndexOf(c);
    IndexOf(Alphabet, c)
  }

  /** The sum that is reduced modulo 26: the letter's alphabet index plus the card value to
      encode, minus it with an offset of 78 to decode. */
  function Offset(dir: Direction, c: char, v: int): int {
    match dir
    case Encode => AlphabetIndex(c) + v
    case Decode => AlphabetIndex(c) - v + 78
  }

  /** `alphabet.charAt(i)`, computed as the letter `i` places after 'A'
      (`AlphabetLetterIsCharAt` ties it to the alphabet). */
  function AlphabetLetter(i: int): (r: char)
    requires 0 <= i < 26
    ensures IsUpperLetter(r) && LetterIndex(r) == i
  {
    ('A' as int + i) as char
  }

  /** The computed letter is the alphabet's character at that position. */
  lemma AlphabetLetterIsCharAt(i: int)
    requires 0 <= i < 26
    ensures AlphabetLetter(i) == Alphabet[i]
  {
    AlphabetAt(i);
  }

  /** `EncoderRing.cipher` / `DecoderRing.cipher` for the letter `c` and a card of value `v`.
      `charAt` is only defined for a non-negative remainder; `v` is `card.getValue()`. */
  function Cipher(dir: Direction, c: char, v: int): (r: char)
    requires 0 <= JavaRem(Offset(dir, c, v), 26)
    ensures IsUpperLetter(r) && LetterIndex(r) == JavaRem(Offset(dir, c, v), 26)
  {
    AlphabetLetter(JavaRem(Offset(dir, c, v), 26))
  }

  /** The encoding offset of a letter is its index plus the card value. */
  lemma EncodeOffset(c: char, v: int)
    requires IsUpperLetter(c)
    ensures Offset(Encode, c, v) == LetterIndex(c) + v
  {
  }

  /** The decoding offset of a letter is its index minus the card value, plus 78. */
  lemma DecodeOffset(c: char, v: int)
    requires IsUpperLetter(c)
    ensures Offset(Decode, c, v) == LetterIndex(c) - v + 78
  {
  }

  /** Java's remainder of a non-negative encoding offset is the mathematical one. */
  lemma EncodeRemainder(c: char, v: int)
    requires IsUpperLetter(c) && 0 <= v
    ensures JavaRem(Offset(Encode, c, v), 26) == (LetterIndex(c) + v) % 26
  {
    hide JavaRem, Offset;
    EncodeOffset(c, v);
    assert 0 <= Offset(Encode, c, v);
  }

  /** Adding 78 = 3 * 26 keeps the decoding sum non-negative for card values up to 78
      without changing its remainder. */
  lemma DecodeRemainder(c: char, v: int)
    requires IsUpperLetter(c) && v <= 78
    ensures JavaRem(Offset(Decode, c, v), 26) == (LetterIndex(c) - v) % 26
  {
    DecodeOffset(c, v);
    ShiftBy78(LetterIndex(c) - v);
  }

  /** Shifting by 78 = 3 * 26 does not change a remainder modulo 26. */
  lemma ShiftBy78(a: int)
    requires 0 <= a + 78
    ensures JavaRem(a + 78, 26) == a % 26
  {
  }

  /** For a letter, encoding adds the card value to its alphabet index modulo 26. */
  lemma {:induction false} EncodeShifts(c: char, v: int)
    requires IsUpperLetter(c) && 0 <= v
    ensures 0 <= JavaRem(Offset(Encode, c, v), 26)
    ensures LetterIndex(Cipher(Encode, c, v)) == (LetterIndex(c) + v) % 26
  {
    EncodeRemainder(c, v);
  }

  /** For a letter, decoding subtracts the card value from its alphabet index modulo 26; the
      offset 78 only keeps Java's remainder non-negative for every value up to 78. */
  lemma {:induction false} DecodeShifts(c: char, v: int)
    requires IsUpperLetter(c) && v <= 78
    ensures 0 <= JavaRem(Offset(Decode, c, v), 26)
    ensures LetterIndex(Cipher(Decode, c, v)) == (LetterIndex(c) - v) % 26
  {
    DecodeRemainder(c, v);
  }

  lemma LetterIndexInjective(a: char, b: char)
    requires IsUpperLetter(a) && IsUpperLetter(b) && LetterIndex(a) == LetterIndex(b)
    ensures a == b
  {
  }

  /** Decoding `e` gives `c` when `e` is `c` shifted forwards by `v`. */
  lemma DecodeAfter(e: char, c: char, v: int)
    requires IsUpperLetter(c) && IsUpperLetter(e) && 0 <= v <= 78
    requires LetterIndex(e) == (LetterIndex(c) + v) % 26
    ensures 0 <= JavaRem(Offset(Decode, e, v), 26)
    ensures Cipher(Decode, e, v) == c
  {
    DecodeShifts(e, v);
    LetterIndexInjective(Cipher(Decode, e, v), c);
  }

  /** Encoding `d` gives `c` when `d` is `c` shifted backwards by `v`. */
  lemma EncodeAfter(d: char, c: char, v: int)
    requires IsUpperLetter(c) && IsUpperLetter(d) && 0 <= v
    requires LetterIndex(d) == (LetterIndex(c) - v) % 26
    ensures 0 <= JavaRem(Offset(Encode, d, v), 26)
    ensures Cipher(Encode, d, v) == c
  {
    EncodeShifts(d, v);
    LetterIndexInjective(Cipher(Encode, d, v), c);
  }

  /** Decoding with the same card value undoes encoding. */
  lemma {:induction false} DecodeUndoesEncode(c: char, v: int)
    requires IsUpperLetter(c) && 0 <= v <= 78
    ensures 0 <= JavaRem(Offset(Encode, c, v), 26)
    ensures var e := Cipher(Encode, c, v);
      0 <= JavaRem(Offset(Decode, e, v), 26) && Cipher(Decode, e, v) == c
  {
    EncodeShifts(c, v);
    DecodeAfter(Cipher(Encode, c, v), c, v);
  }

  /** Encoding with the same card value undoes decoding. */
  lemma {:induction false} EncodeUndoesDecode(c: char, v: int)
    requires IsUpperLetter(c) && 0 <= v <= 78
    ensures 0 <= JavaRem(Offset(Decode, c, v), 26)
    ensures var d := Cipher(Decode, c, v);
      0 <= JavaRem(Offset(Encode, d, v), 26) && Cipher(Encode, d, v) == c
  {
    DecodeShifts(c, v);
    EncodeAfter(Cipher(Decode, c, v), c, v);
  }

  /** Two card values 26 apart shift a letter by the same amount. */
  lemma Period(i: int, v: int)
    ensures (i + v) % 26 == (i + (v + 26)) % 26
  {
  }

  /** Encoding depends only on the card value modulo 26. */
  lemma {:induction false} EncodeIsPeriodic(c: char, v: int)
    requires IsUpperLetter(c) && 0 <= v
    ensures 0 <= JavaRem(Offset(Encode, c, v), 26) && 0 <= JavaRem(Offset(Encode, c, v + 26), 26)
    ensures Cipher(Encode, c, v) == Cipher(Encode, c, v + 26)
  {
    hide JavaRem, Offset, Cipher;
    EncodeShifts(c, v);
    EncodeShifts(c, v + 26);
    Period(LetterIndex(c), v);
    LetterIndexInjective(Cipher(Encode, c, v), Cipher(Encode, c, v + 26));
  }

  /** The encoder ring's expected letters for 'A'. */
  lemma EncoderVectors()
    ensures Cipher(Encode, 'A', 10) == 'K' && Cipher(Encode, 'A', 20) == 'U'
    ensures Cipher(Encode, 'A', 30) == 'E' && Cipher(Encode, 'A', 40) == 'O'
    ensures Cipher(Encode, 'A', 25) == 'Z'
  {
    LetterIndexInjective(Cipher(Encode, 'A', 10), 'K');
    LetterIndexInjective(Cipher(Encode, 'A', 20), 'U');
    LetterIndexInjective(Cipher(Encode, 'A', 30), 'E');
    LetterIndexInjective(Cipher(Encode, 'A', 40), 'O');
    LetterIndexInjective(Cipher(Encode, 'A', 25), 'Z');
  }

  /** The decoder ring's expected letters for 'A'. */
  lemma DecoderVectors()
    ensures Cipher(Decode, 'A', 1) == 'Z' && Cipher(Decode, 'A', 20) == 'G'
    ensures Cipher(Decode, 'A', 30) == 'W' && Cipher(Decode, 'A', 40) == 'M'
  {
    var z, g, w, m := Cipher(Decode, 'A', 1), Cipher(Decode, 'A', 20), Cipher(Decode, 'A', 30), Cipher(Decode, 'A', 40);
    assert LetterIndex(z) == 25 && LetterIndex(g) == 6 && LetterIndex(w) == 22 && LetterIndex(m) == 12;
    LetterIndexInjective(z, 'Z');
    LetterIndexInjective(g, 'G');
    LetterIndexInjective(w, 'W');
    LetterIndexInjective(m, 'M');
  }
}
