/** `Solitaire.formatMessage`: the letters of a message, upper-cased, in blocks of five
    separated by single spaces, the last block padded with 'X'. `Blocks` is the reference
    definition (five letters, a space, the rest); `FormatMessage` is the string-builder loop
    of the Java code, proved to compute it. */
module Formatting {
  import opened Prelude

  /** `toUpperCase` on an ASCII letter. */
  function Upper(c: char): (u: char)
    requires IsAsciiLetter(c)
    ensures IsUpperLetter(u)
    ensures IsUpperLetter(c) ==> u == c
    ensures 'a' <= c <= 'z' ==> u as int - 'A' as int == c as int - 'a' as int
  {
    if 'a' <= c <= 'z' then (c as int - 'a' as int + 'A' as int) as char else c
  }

  /** `replaceAll("[^a-zA-Z]", "").toUpperCase()`: the ASCII letters of `s`, in order,
      upper-cased. */
  function Scrub(s: string): (r: string)
    ensures |r| <= |s|
    ensures forall k :: 0 <= k < |r| ==> IsUpperLetter(r[k])
  {
    if s == [] then []
    else (if IsAsciiLetter(s[0]) then [Upper(s[0])] else []) + Scrub(s[1..])
  }

  /** Scrubbing works piece by piece. */
  lemma {:induction false} ScrubAppend(a: string, b: string)
    ensures Scrub(a + b) == Scrub(a) + Scrub(b)
  {
    if a != [] {
      assert (a + b)[0] == a[0] && (a + b)[1..] == a[1..] + b;
      ScrubAppend(a[1..], b);
    } else {
      assert a + b == b;
    }
  }

  /** A string of upper-case letters scrubs to itself. */
  lemma {:induction false} ScrubKeepsUpper(s: string)
    requires forall k :: 0 <= k < |s| ==> IsUpperLetter(s[k])
    ensures Scrub(s) == s
  {
    if s != [] {
      ScrubKeepsUpper(s[1..]);
    }
  }

  /** A string without letters scrubs to nothing. */
  lemma {:induction false} ScrubDropsNonLetters(s: string)
    requires forall k :: 0 <= k < |s| ==> !IsAsciiLetter(s[k])
    ensures Scrub(s) == []
  {
    if s != [] {
      ScrubDropsNonLetters(s[1..]);
    }
  }

  /** The letter at position `j` of the padded letters: past the end it is 'X'. */
  function PadAt(letters: string, j: int): char
    requires 0 <= j
  {
    if j < |letters| then letters[j] else 'X'
  }

  /** A last block: at most five letters, padded with 'X' to five. */
  function LastBlock(letters: string): (r: string)
    requires |letters| <= 5
    ensures |r| == 5
    decreases 5 - |letters|
  {
    if |letters| == 5 then letters else LastBlock(letters + "X")
  }

  /** The last block holds the letters, then 'X'. */
  lemma {:induction false} LastBlockAt(letters: string)
    requires |letters| <= 5
    ensures forall j :: 0 <= j < 5 ==> LastBlock(letters)[j] == PadAt(letters, j)
    decreases 5 - |letters|
  {
    if |letters| < 5 {
      LastBlockAt(letters + "X");
      forall j | 0 <= j < 5 ensures PadAt(letters + "X", j) == PadAt(letters, j) {
      }
    }
  }

  /** The number of blocks for `n` letters: five letters a block, a part block counting
      as a whole one. */
  function BlockCount(n: int): int {
    (n + 4) / 5
  }

  /** Blocks of five letters joined by single spaces, the last one padded with 'X'. */
  function Blocks(letters: string): (r: string)
    requires 1 <= |letters|
    decreases |letters|
  {
    if |letters| <= 5 then LastBlock(letters)
    else letters[..5] + " " + Blocks(letters[5..])
  }

  /** The letters padded with 'X' to whole blocks, without the spaces. */
  function Padded(letters: string): (r: string)
    requires 1 <= |letters|
    decreases |letters|
  {
    if |letters| <= 5 then LastBlock(letters)
    else letters[..5] + Padded(letters[5..])
  }

  /** Position by position, `Blocks` is a space at every sixth place and otherwise the next
      letter, 'X' past the end; it holds `BlockCount` blocks, so it is one character short
      of six per block. */
  lemma {:induction false} BlocksAt(letters: string)
    requires 1 <= |letters|
    ensures |Blocks(letters)| == 6 * BlockCount(|letters|) - 1
    ensures forall k :: 0 <= k < |Blocks(letters)| ==>
      Blocks(letters)[k] == if k % 6 == 5 then ' ' else PadAt(letters, 5 * (k / 6) + k % 6)
    decreases |letters|
  {
    var r := Blocks(letters);
    if |letters| <= 5 {
      LastBlockAt(letters);
    } else {
      var rest := letters[5..];
      BlocksAt(rest);
      assert r == letters[..5] + " " + Blocks(rest);
      forall k | 0 <= k < |r|
        ensures r[k] == if k % 6 == 5 then ' ' else PadAt(letters, 5 * (k / 6) + k % 6)
      {
        if 6 <= k {
          SixMore(k - 6);
          assert r[k] == Blocks(rest)[k - 6];
        }
      }
    }
  }

  /** Moving six places along the formatted text moves one block along. */
  lemma SixMore(k: int)
    requires 0 <= k
    ensures (k + 6) % 6 == k % 6 && (k + 6) / 6 == k / 6 + 1
  {
  }

  /** Every character of `Blocks` is an upper-case letter or a space, the spaces exactly at
      every sixth place. */
  predicate IsFormatted(r: string) {
    |r| % 6 == 5 &&
    forall k :: 0 <= k < |r| ==> if k % 6 == 5 then r[k] == ' ' else IsUpperLetter(r[k])
  }

  /** The blocks of upper-case letters are formatted text. */
  lemma BlocksFormatted(letters: string)
    requires 1 <= |letters|
    requires forall k :: 0 <= k < |letters| ==> IsUpperLetter(letters[k])
    ensures IsFormatted(Blocks(letters))
  {
    BlocksAt(letters);
    var r := Blocks(letters);
    OneShortOfBlocks(BlockCount(|letters|));
    forall k | 0 <= k < |r| && k % 6 != 5 ensures IsUpperLetter(r[k]) {
      var j := 5 * (k / 6) + k % 6;
      assert r[k] == PadAt(letters, j);
    }
  }

  /** A text one character short of whole six-character blocks ends in a part block of five. */
  lemma OneShortOfBlocks(q: int)
    requires 1 <= q
    ensures (6 * q - 1) % 6 == 5
  {
    assert 6 * q - 1 == 6 * (q - 1) + 5;
  }

  /** Scrubbing the blocks of upper-case letters removes just the spaces. */
  lemma {:induction false} ScrubBlocks(letters: string)
    requires 1 <= |letters|
    requires forall k :: 0 <= k < |letters| ==> IsUpperLetter(letters[k])
    ensures Scrub(Blocks(letters)) == Padded(letters)
    decreases |letters|
  {
    if |letters| <= 5 {
      LastBlockAt(letters);
      ScrubKeepsUpper(LastBlock(letters));
    } else {
      var rest := letters[5..];
      ScrubBlocks(rest);
      ScrubAppend(letters[..5] + " ", Blocks(rest));
      ScrubAppend(letters[..5], " ");
      ScrubKeepsUpper(letters[..5]);
    }
  }

  /** Padded letters hold whole blocks, so formatting them again adds no padding. */
  lemma {:induction false} BlocksOfPadded(letters: string)
    requires 1 <= |letters|
    ensures |Padded(letters)| == 5 * BlockCount(|letters|)
    ensures Blocks(Padded(letters)) == Blocks(letters)
    decreases |letters|
  {
    if |letters| > 5 {
      var rest := letters[5..];
      BlocksOfPadded(rest);
      var p := Padded(letters);
      assert p[..5] == letters[..5] && p[5..] == Padded(rest);
    }
  }

  /** What `formatMessage` returns: no result when the message has no letters (the final
      `substring(1, 0)` throws), otherwise the blocks of its letters. */
  function Format(message: string): (r: Option<string>)
    ensures r.None? <==> Scrub(message) == []
    ensures r.Some? ==> IsFormatted(r.value)
  {
    var letters := Scrub(message);
    if |letters| == 0 then None
    else
      BlocksFormatted(letters);
      Some(Blocks(letters))
  }

  /** Formatting formatted text changes nothing. */
  lemma FormatIdempotent(message: string)
    requires Format(message).Some?
    ensures Format(Format(message).value) == Format(message)
  {
    var letters := Scrub(message);
    ScrubBlocks(letters);
    BlocksOfPadded(letters);
  }

  /** Formatted text is what formatting its own letters gives: each block of five letters
      comes back, with the spaces between them. */
  lemma {:induction false} BlocksOfFormatted(r: string)
    requires IsFormatted(r)
    ensures 1 <= |Scrub(r)| && Blocks(Scrub(r)) == r
    decreases |r|
  {
    if |r| == 5 {
      ScrubKeepsUpper(r);
    } else {
      var rest := r[6..];
      assert r == r[..5] + " " + rest;
      assert IsFormatted(rest) by {
        assert |rest| == |r| - 6;
        forall k | 0 <= k < |rest|
          ensures if k % 6 == 5 then rest[k] == ' ' else IsUpperLetter(rest[k])
        {
          SixMore(k);
          assert rest[k] == r[k + 6];
        }
      }
      BlocksOfFormatted(rest);
      ScrubAppend(r[..5] + " ", rest);
      ScrubAppend(r[..5], " ");
      ScrubKeepsUpper(r[..5]);
      ScrubDropsNonLetters(" ");
      var letters := r[..5] + Scrub(rest);
      assert Scrub(r) == letters;
      assert letters[..5] == r[..5] && letters[5..] == Scrub(rest);
    }
  }

  /** Formatting formatted text gives it back unchanged; this is why decrypting, which
      formats its input again, sees the ciphertext as it was produced. */
  lemma FormattedIsFixed(r: string)
    requires IsFormatted(r)
    ensures Format(r) == Some(r)
  {
    BlocksOfFormatted(r);
  }

  /** Formatting keeps exactly the letters of the message, upper-cased and in order, then
      pads them with 'X' to whole blocks. */
  lemma FormatKeepsLetters(message: string)
    requires Format(message).Some?
    ensures var letters := Scrub(message);
      var r := Format(message).value;
      |r| == 6 * BlockCount(|letters|) - 1 &&
      forall k :: 0 <= k < |r| && k % 6 != 5 ==> r[k] == PadAt(letters, 5 * (k / 6) + k % 6)
  {
    BlocksAt(Scrub(message));
  }

  /** The content of the string builder after the loop has run `i` times: a space before
      every fifth character, then the letters, 'X' past the end. */
  ghost function BuiltAt(chars: string, k: int): char
    requires 0 <= k
  {
    if k % 6 == 0 then ' ' else PadAt(chars, 5 * (k / 6) + k % 6 - 1)
  }

  /** The string builder after `i` steps of the loop. */
  ghost predicate Built(chars: string, sb: string, i: int)
    requires 0 <= i
  {
    |sb| == i + (i + 4) / 5 &&
    forall k :: 0 <= k < |sb| ==> sb[k] == BuiltAt(chars, k)
  }

  /** One step of the loop: a space when `i` is a multiple of five, then the letter at `i`
      ('X' past the end) keeps the builder in shape. */
  lemma BuilderAppend(chars: string, sb: string, i: int)
    requires 0 <= i && Built(chars, sb, i)
    ensures Built(chars, (if i % 5 == 0 then sb + " " else sb) + [PadAt(chars, i)], i + 1)
  {
    var q, m := i / 5, i % 5;
    assert i == 5 * q + m;
    assert (i + 5) / 5 == q + 1;
    var sb1 := if i % 5 == 0 then sb + " " else sb;
    if m == 0 {
      assert |sb| == 6 * q;
      assert BuiltAt(chars, |sb|) == ' ';
    } else {
      assert (i + 4) / 5 == q + 1;
    }
    var p := 6 * q + m + 1;
    assert |sb1| == p;
    assert p % 6 == m + 1 && p / 6 == q;
    assert BuiltAt(chars, p) == PadAt(chars, i);
  }

  /** The end index of the final `substring`: the builder length rounded down to a multiple
      of six is six per block. */
  lemma BuilderEnd(n: int)
    requires 0 <= n
    ensures var len := n + 4 + (n + 8) / 5;
      len - len % 6 == 6 * BlockCount(n)
  {
    var q, m := (n + 4) / 5, (n + 4) % 5;
    assert n + 4 == 5 * q + m;
    var len := n + 4 + (n + 8) / 5;
    if m == 0 {
      assert len == 6 * q;
    } else {
      assert len == 6 * q + 1 + m;
    }
  }

  /** One place further along the builder is one place further along the blocks. */
  lemma BuiltAtNext(chars: string, k: int)
    requires 0 <= k
    ensures BuiltAt(chars, k + 1) ==
      if k % 6 == 5 then ' ' else PadAt(chars, 5 * (k / 6) + k % 6)
  {
    var q, m := k / 6, k % 6;
    assert k == 6 * q + m;
    if m == 5 {
      assert k + 1 == 6 * (q + 1);
    } else {
      assert (k + 1) % 6 == m + 1 && (k + 1) / 6 == q;
    }
  }

  /** Once every letter and the four padding places have been appended, the builder holds
      a leading space and then the blocks, followed by a part block that the final cut
      removes; there is nothing to cut out when there were no letters. */
  lemma BuiltIsBlocks(chars: string, sb: string)
    requires Built(chars, sb, |chars| + 4)
    ensures var end := |sb| - |sb| % 6;
      (end < 1 <==> chars == []) &&
      (chars != [] ==> sb[1..end] == Blocks(chars))
  {
    BuilderEnd(|chars|);
    var end := |sb| - |sb| % 6;
    if chars != [] {
      BlocksAt(chars);
      hide BuiltAt, PadAt, Blocks;
      var r := Blocks(chars);
      assert |sb[1..end]| == |r|;
      forall k | 0 <= k < |r| ensures sb[1..end][k] == r[k] {
        BuiltAtNext(chars, k);
        assert sb[1..end][k] == sb[k + 1];
      }
    }
  }

  /** `formatMessage`: scrub the message, append each letter (a space before every fifth,
      'X' for the four places past the end), then cut off the leading space and the
      trailing part block. */
  method FormatMessage(unformattedMessage: string) returns (formatted: Option<string>)
    ensures formatted == Format(unformattedMessage)
  {
    var chars := Scrub(unformattedMessage);
    var sb: string := "";
    var i := 0;
    assert Built(chars, sb, i);
    hide Built;
    while i < |chars| + 4
      invariant 0 <= i <= |chars| + 4
      invariant Built(chars, sb, i)
    {
      BuilderAppend(chars, sb, i);
      if i % 5 == 0 {
        sb := sb + " ";
      }
      if i >= |chars| {
        sb := sb + "X";
      } else {
        sb := sb + [chars[i]];
      }
      i := i + 1;
    }
    BuiltIsBlocks(chars, sb);
    var end := |sb| - |sb| % 6;
    if end < 1 {
      // `substring(1, end)` with `end < 1` throws.
      return None;
    }
    formatted := Some(sb[1..end]);
  }
}
