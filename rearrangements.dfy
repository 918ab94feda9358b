/** The three list rearrangements the deck performs, for any element type: moving an element
    down one place (with the wrap rule below the first element), moving it down several
    places, the triple cut on two elements, and moving the first elements to just above the
    last one. The deck applies them to its list of cards. */
module Rearrangements {
  import opened Prelude

  /** The element at `i` swapped with the one below it. */
  function SwapWithNext<T>(s: seq<T>, i: int): (r: seq<T>)
    requires 0 <= i < |s| - 1
    ensures |r| == |s|
  {
    s[..i] + [s[i + 1], s[i]] + s[i + 2..]
  }

  /** The last element taken out and put back just below the first one. */
  function LastToSecond<T>(s: seq<T>): (r: seq<T>)
    requires 2 <= |s|
    ensures |r| == |s|
  {
    [s[0], s[|s| - 1]] + s[1..|s| - 1]
  }

  /** A swap keeps the elements and changes only the two swapped places. */
  lemma SwapWithNextFacts<T>(s: seq<T>, i: int)
    requires 0 <= i < |s| - 1
    ensures var r := SwapWithNext(s, i);
      multiset(r) == multiset(s) && r[i] == s[i + 1] && r[i + 1] == s[i] &&
      forall k :: 0 <= k < |s| && k != i && k != i + 1 ==> r[k] == s[k]
  {
    assert s == s[..i] + [s[i], s[i + 1]] + s[i + 2..];
  }

  /** Moving the last element below the first keeps the elements, keeps the first in
      place and shifts the ones in between down by one place. */
  lemma LastToSecondFacts<T>(s: seq<T>)
    requires 2 <= |s|
    ensures var r := LastToSecond(s);
      multiset(r) == multiset(s) && r[0] == s[0] && r[1] == s[|s| - 1] &&
      forall k :: 1 <= k < |s| - 1 ==> r[k + 1] == s[k]
  {
    assert s == [s[0]] + s[1..|s| - 1] + [s[|s| - 1]];
  }

  /** One `moveCardDown(card)`: the element swaps with the one below it, or, when it is the
      last element, is taken out and put back just below the first one. */
  function MovedDownOnce<T(==)>(s: seq<T>, c: T): (r: seq<T>)
    requires c in s && 2 <= |s|
    ensures |r| == |s| && c in r
  {
    var i := IndexOf(s, c);
    if i == |s| - 1 then
      assert LastToSecond(s)[1] == c;
      LastToSecond(s)
    else
      assert SwapWithNext(s, i)[i + 1] == c;
      SwapWithNext(s, i)
  }

  /** A single move keeps the elements. */
  lemma MovedDownOncePermutes<T>(s: seq<T>, c: T)
    requires c in s && 2 <= |s|
    ensures multiset(MovedDownOnce(s, c)) == multiset(s)
  {
    hide SwapWithNext, LastToSecond;
    var i := IndexOf(s, c);
    if i == |s| - 1 {
      LastToSecondFacts(s);
    } else {
      SwapWithNextFacts(s, i);
    }
  }

  /** An element above the last swaps with the one below it and nothing else moves; the
      last element goes to position 1, below the unmoved first element, and the elements
      between move down one place. */
  lemma MovedDownOnceShape<T>(s: seq<T>, c: T)
    requires c in s && 2 <= |s|
    ensures var r, i := MovedDownOnce(s, c), IndexOf(s, c);
      i < |s| - 1 ==>
        r[i] == s[i + 1] && r[i + 1] == c &&
        forall k :: 0 <= k < |s| && k != i && k != i + 1 ==> r[k] == s[k]
    ensures var r := MovedDownOnce(s, c);
      IndexOf(s, c) == |s| - 1 ==>
        r[0] == s[0] && r[1] == c && forall k :: 1 <= k < |s| - 1 ==> r[k + 1] == s[k]
  {
    hide SwapWithNext, LastToSecond;
    var i := IndexOf(s, c);
    if i == |s| - 1 {
      LastToSecondFacts(s);
    } else {
      SwapWithNextFacts(s, i);
    }
  }

  /** `moveCardDown(card, n)`: `n` single moves of the same element. */
  function MovedDown<T(==)>(s: seq<T>, c: T, n: nat): (r: seq<T>)
    requires c in s && 2 <= |s|
    ensures |r| == |s| && c in r
  {
    if n == 0 then s else MovedDownOnce(MovedDown(s, c, n - 1), c)
  }

  /** Any number of moves keeps the elements. */
  lemma {:induction false} MovedDownPermutes<T>(s: seq<T>, c: T, n: nat)
    requires c in s && 2 <= |s|
    ensures multiset(MovedDown(s, c, n)) == multiset(s)
  {
    hide MovedDownOnce;
    if n > 0 {
      MovedDownPermutes(s, c, n - 1);
      MovedDownOncePermutes(MovedDown(s, c, n - 1), c);
    }
  }

  /** Where the element at position `p` of a 54-element list ends after `n` moves down: it
      walks down one place per move and, from the bottom, wraps to position 1, so from the
      first move on it cycles through positions 1..53. */
  function Landing(p: int, n: nat): int {
    if n == 0 then p else (p + n - 1) % 53 + 1
  }

  /** One more move takes the element one place further along that cycle. */
  lemma LandingStep(p: int, n: nat)
    requires 0 <= p < 54 && 1 <= n
    ensures 0 <= Landing(p, n - 1) < 54
    ensures Landing(p, n) == if Landing(p, n - 1) == 53 then 1 else Landing(p, n - 1) + 1
  {
  }

  /** In a list without repeated elements, a single move takes the element from position
      `p` to the next position of the cycle, and leaves no element repeated. */
  lemma MovedDownOnceLands<T>(s: seq<T>, c: T, p: int)
    requires Distinct(s) && 2 <= |s| && 0 <= p < |s| && s[p] == c
    ensures Distinct(MovedDownOnce(s, c))
    ensures MovedDownOnce(s, c)[if p == |s| - 1 then 1 else p + 1] == c
  {
    IndexOfUnique(s, c, p);
    MovedDownOnceShape(s, c);
    MovedDownOncePermutes(s, c);
    DistinctPermutation(s, MovedDownOnce(s, c));
  }

  /** `moveCardDown(card, n)` on 54 elements without repeats puts the element at
      `Landing(p, n)`. */
  lemma {:induction false} MovedDownLands<T>(s: seq<T>, c: T, p: int, n: nat)
    requires Distinct(s) && |s| == 54 && 0 <= p < 54 && s[p] == c
    ensures 0 <= Landing(p, n) < 54
    ensures Distinct(MovedDown(s, c, n))
    ensures MovedDown(s, c, n)[Landing(p, n)] == c
    decreases n
  {
    hide MovedDownOnce;
    if n > 0 {
      MovedDownLands(s, c, p, n - 1);
      LandingStep(p, n);
      MovedDownOnceLands(MovedDown(s, c, n - 1), c, Landing(p, n - 1));
    }
  }

  /** The position the deck tests expect after moving the card at `loc` (not the bottom
      card) of a 54-card deck down `n` places: `(loc + n) % 54`, one further when that
      wrapped past the top card. */
  lemma {:induction false} LandingMatchesTestFormula(loc: int, n: nat)
    requires 0 <= loc < 53 && n <= 53
    ensures Landing(loc, n) == (loc + n) % 54 + (if (loc + n) % 54 < n then 1 else 0)
  {
    if n > 0 {
      if loc + n < 54 {
        assert (loc + n) % 54 == loc + n && (loc + n - 1) % 53 == loc + n - 1;
      } else {
        assert (loc + n) % 54 == loc + n - 54 && (loc + n - 1) % 53 == loc + n - 54;
      }
    }
  }

  /** The list operations behind `moveCardDown`: removing the last element and inserting
      it at index 1, or writing two neighbours into each other's places. */
  lemma RemoveLastInsertSecond<T>(s: seq<T>)
    requires 2 <= |s|
    ensures var n := |s| - 1;
      var t := s[..n] + s[n + 1..];
      t[..1] + [s[n]] + t[1..] == LastToSecond(s)
  {
  }

  lemma SetTwiceSwaps<T>(s: seq<T>, i: int)
    requires 0 <= i < |s| - 1
    ensures s[i := s[i + 1]][i + 1 := s[i]] == SwapWithNext(s, i)
  {
  }

  /** The earlier and the later of the positions of `a` and `b`. */
  function CutBounds<T(==)>(s: seq<T>, a: T, b: T): (bounds: (int, int))
    requires a in s && b in s
    ensures 0 <= bounds.0 <= bounds.1 < |s|
    ensures {bounds.0, bounds.1} == {IndexOf(s, a), IndexOf(s, b)}
  {
    var i, j := IndexOf(s, a), IndexOf(s, b);
    if i < j then (i, j) else (j, i)
  }

  /** The blocks `s[..lo]`, `s[lo..hi + 1]` and `s[hi + 1..]` put back in reverse block
      order. */
  function ThreeBlocks<T>(s: seq<T>, lo: int, hi: int): (r: seq<T>)
    requires 0 <= lo <= hi < |s|
    ensures |r| == |s|
  {
    s[hi + 1..] + s[lo..hi + 1] + s[..lo]
  }

  /** The blocks appended one by one to an empty list, as `tripleCut` builds them. */
  lemma ThreeBlocksAppended<T>(s: seq<T>, lo: int, hi: int)
    requires 0 <= lo <= hi < |s|
    ensures [] + s[hi + 1..] + s[lo..hi + 1] + s[..lo] == ThreeBlocks(s, lo, hi)
  {
  }

  /** Reversing the block order keeps the elements. */
  lemma ThreeBlocksPermutes<T>(s: seq<T>, lo: int, hi: int)
    requires 0 <= lo <= hi < |s|
    ensures multiset(ThreeBlocks(s, lo, hi)) == multiset(s)
  {
    assert s == s[..lo] + s[lo..hi + 1] + s[hi + 1..];
  }

  /** The middle block starts at `|s| - 1 - hi` after the blocks are reversed. */
  lemma ThreeBlocksMiddle<T>(s: seq<T>, lo: int, hi: int, k: int)
    requires 0 <= lo <= k <= hi < |s|
    ensures ThreeBlocks(s, lo, hi)[|s| - 1 - hi + (k - lo)] == s[k]
  {
  }

  /** Reversing the block order again, at the boundaries the middle block now has, gives
      back the list. */
  lemma {:induction false} ThreeBlocksTwice<T>(s: seq<T>, lo: int, hi: int)
    requires 0 <= lo <= hi < |s|
    ensures ThreeBlocks(ThreeBlocks(s, lo, hi), |s| - 1 - hi, |s| - 1 - lo) == s
  {
    var top, mid, bottom := s[..lo], s[lo..hi + 1], s[hi + 1..];
    var r := ThreeBlocks(s, lo, hi);
    assert r == bottom + mid + top;
    var lo', hi' := |s| - 1 - hi, |s| - 1 - lo;
    assert r[..lo'] == bottom;
    assert r[lo'..hi' + 1] == mid;
    assert r[hi' + 1..] == top;
    assert s == top + mid + bottom;
  }

  /** `tripleCut(a, b)`: with `lo` and `hi` the earlier and later positions of the two
      elements, the elements below `hi` come first, then the block from `lo` to `hi`, then
      the elements above `lo`. */
  function TripleCutOf<T(==)>(s: seq<T>, a: T, b: T): (r: seq<T>)
    requires a in s && b in s
    ensures |r| == |s|
  {
    var (lo, hi) := CutBounds(s, a, b);
    ThreeBlocks(s, lo, hi)
  }

  /** The triple cut keeps the elements. */
  lemma TripleCutPermutes<T>(s: seq<T>, a: T, b: T)
    requires a in s && b in s
    ensures multiset(TripleCutOf(s, a, b)) == multiset(s)
  {
    hide ThreeBlocks;
    var (lo, hi) := CutBounds(s, a, b);
    ThreeBlocksPermutes(s, lo, hi);
  }

  /** The triple cut does not depend on the order of its two elements. */
  lemma TripleCutSymmetric<T>(s: seq<T>, a: T, b: T)
    requires a in s && b in s
    ensures TripleCutOf(s, a, b) == TripleCutOf(s, b, a)
  {
    hide ThreeBlocks;
    assert CutBounds(s, a, b) == CutBounds(s, b, a);
  }

  /** In a list without repeated elements, the two elements bound the same block after
      the cut, now at the mirrored positions. */
  lemma {:induction false} TripleCutBounds<T>(s: seq<T>, a: T, b: T)
    requires Distinct(s) && a in s && b in s
    ensures var (lo, hi) := CutBounds(s, a, b);
      var r := TripleCutOf(s, a, b);
      a in r && b in r && CutBounds(r, a, b) == (|s| - 1 - hi, |s| - 1 - lo)
  {
    hide ThreeBlocks;
    var (lo, hi) := CutBounds(s, a, b);
    var i, j := IndexOf(s, a), IndexOf(s, b);
    var r := TripleCutOf(s, a, b);
    ThreeBlocksPermutes(s, lo, hi);
    DistinctPermutation(s, r);
    ThreeBlocksMiddle(s, lo, hi, i);
    ThreeBlocksMiddle(s, lo, hi, j);
    IndexOfUnique(r, a, |s| - 1 - hi + (i - lo));
    IndexOfUnique(r, b, |s| - 1 - hi + (j - lo));
  }

  /** On a list without repeated elements, the triple cut undoes itself: the cut block
      keeps its place in the middle and the two outer blocks change places back. */
  lemma {:induction false} TripleCutInvolution<T>(s: seq<T>, a: T, b: T)
    requires Distinct(s) && a in s && b in s
    ensures TripleCutOf(TripleCutOf(s, a, b), a, b) == s
  {
    hide ThreeBlocks;
    var (lo, hi) := CutBounds(s, a, b);
    TripleCutBounds(s, a, b);
    ThreeBlocksTwice(s, lo, hi);
  }

  /** The top `v` elements moved to just above the last one: `subList(0, v)` taken out and
      put back before the last element. */
  function CutAboveLast<T>(s: seq<T>, v: int): (r: seq<T>)
    requires 0 <= v <= |s| - 1
    ensures |r| == |s|
    ensures r[|s| - 1] == s[|s| - 1]
  {
    var n := |s| - 1;
    s[v..n] + s[..v] + [s[n]]
  }

  /** The two pieces and the last element appended one by one to an empty list, as
      `bottomValueCut` builds them. */
  lemma CutAboveLastAppended<T>(s: seq<T>, v: int)
    requires 0 <= v <= |s| - 1
    ensures [] + s[v..|s| - 1] + s[..v] + [s[|s| - 1]] == CutAboveLast(s, v)
  {
  }

  /** The cut keeps the elements, and changes nothing when `v` is the number of other
      elements. */
  lemma CutAboveLastPermutes<T>(s: seq<T>, v: int)
    requires 0 <= v <= |s| - 1
    ensures multiset(CutAboveLast(s, v)) == multiset(s)
    ensures v == |s| - 1 ==> CutAboveLast(s, v) == s
  {
    var n := |s| - 1;
    assert s == s[..v] + s[v..n] + [s[n]];
  }

  /** The cut rotates the elements above the last one by `v`: the element at `k` comes
      from `k + v`, counted round the `|s| - 1` places above the last one. */
  lemma CutAboveLastRotates<T>(s: seq<T>, v: int)
    requires 0 <= v <= |s| - 1
    ensures var n := |s| - 1;
      forall k :: 0 <= k < n ==> CutAboveLast(s, v)[k] == s[(k + v) % n]
  {
    var n := |s| - 1;
    forall k | 0 <= k < n ensures CutAboveLast(s, v)[k] == s[(k + v) % n] {
      WrapOnce(k + v, n);
    }
  }

  /** A number below twice `n` reduces modulo `n` by at most one subtraction. */
  lemma WrapOnce(x: int, n: int)
    requires 0 <= x < 2 * n
    ensures x % n == if x < n then x else x - n
  {
  }
}
