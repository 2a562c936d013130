/** The string operations the filters use: Python's `str.lower()` and the
    substring test `needle in hay`. */
module Text {

  /** `str.lower()` on one character, for the Latin and Cyrillic capitals
      (U+0041..U+005A, U+0400..U+042F); every other character is kept. */
  function LowerChar(c: char): (l: char)
    ensures ('A' <= c <= 'Z' || 'А' <= c <= 'Я') ==> l as int == c as int + 32
    ensures 'Ѐ' <= c <= 'Џ' ==> l as int == c as int + 80
    ensures !('A' <= c <= 'Z' || 'А' <= c <= 'Я' || 'Ѐ' <= c <= 'Џ') ==> l == c
  {
    if 'A' <= c <= 'Z' then (c as int + 32) as char
    else if 'А' <= c <= 'Я' then (c as int + 32) as char
    else if 'Ѐ' <= c <= 'Џ' then (c as int + 80) as char
    else c
  }

  /** `s.lower()`: the same length, each character lowered on its own. */
  function Lower(s: string): (r: string)
    ensures |r| == |s|
    ensures forall i :: 0 <= i < |s| ==> r[i] == LowerChar(s[i])
  {
    if s == [] then [] else [LowerChar(s[0])] + Lower(s[1..])
  }

  /** Lowering a lowered character changes nothing. */
  lemma LowerCharIdempotent(c: char)
    ensures LowerChar(LowerChar(c)) == LowerChar(c)
  {
  }

  lemma LowerIdempotent(s: string)
    ensures Lower(Lower(s)) == Lower(s)
  {
    forall i | 0 <= i < |s| ensures Lower(Lower(s))[i] == Lower(s)[i] {
      LowerCharIdempotent(s[i]);
    }
  }

  predicate StartsWith(s: string, prefix: string)
  {
    |prefix| <= |s| && s[..|prefix|] == prefix
  }

  /** Python's `needle in hay`: some suffix of `hay` starts with `needle`. */
  predicate Contains(hay: string, needle: string): (r: bool)
    ensures needle == [] ==> r
    ensures r ==> |needle| <= |hay|
    decreases |hay|
  {
    StartsWith(hay, needle) || (hay != [] && Contains(hay[1..], needle))
  }

  /** `needle` occurs in `hay` starting at index `i`. */
  predicate OccursAt(hay: string, needle: string, i: int)
  {
    0 <= i <= |hay| - |needle| && hay[i..i + |needle|] == needle
  }

  /** `needle in hay` holds exactly when `needle` occurs at some index of `hay`. */
  lemma {:induction false} ContainsIffOccurs(hay: string, needle: string)
    ensures Contains(hay, needle) <==> exists i :: OccursAt(hay, needle, i)
    decreases |hay|
  {
    if StartsWith(hay, needle) {
      assert OccursAt(hay, needle, 0);
    } else if hay != [] {
      ContainsIffOccurs(hay[1..], needle);
      if Contains(hay[1..], needle) {
        var i :| OccursAt(hay[1..], needle, i);
        assert hay[1..][i..i + |needle|] == hay[i + 1..i + 1 + |needle|];
        assert OccursAt(hay, needle, i + 1);
      }
      if exists i :: OccursAt(hay, needle, i) {
        var i :| OccursAt(hay, needle, i);
        assert i != 0;
        assert hay[1..][i - 1..i - 1 + |needle|] == hay[i..i + |needle|];
        assert OccursAt(hay[1..], needle, i - 1);
      }
    } else {
      assert forall i :: !OccursAt(hay, needle, i);
    }
  }

  /** Placed at index `i`, `needle` differs from `hay` at some position. */
  predicate MismatchAt(hay: string, needle: string, i: int)
  {
    exists k :: 0 <= k < |needle| && 0 <= i + k < |hay| && hay[i + k] != needle[k]
  }

  /** A needle that differs from the text somewhere at every index where it
      could start is not in the text. */
  lemma NotContainedIfMismatched(hay: string, needle: string)
    requires forall i :: 0 <= i <= |hay| - |needle| ==> MismatchAt(hay, needle, i)
    ensures !Contains(hay, needle)
  {
    ContainsIffOccurs(hay, needle);
    forall i | 0 <= i <= |hay| - |needle| ensures !OccursAt(hay, needle, i) {
      assert MismatchAt(hay, needle, i);
      var k :| 0 <= k < |needle| && 0 <= i + k < |hay| && hay[i + k] != needle[k];
      assert hay[i..i + |needle|][k] == hay[i + k];
    }
  }

  /** `needle.lower() in hay.lower()`, the case-insensitive match of the name filters. */
  predicate ContainsIgnoringCase(hay: string, needle: string): (r: bool)
    ensures needle == [] ==> r
    ensures r ==> |needle| <= |hay|
  {
    Contains(Lower(hay), Lower(needle))
  }

  /** An exact occurrence is also an occurrence ignoring case. */
  lemma ExactMatchMatchesIgnoringCase(hay: string, needle: string)
    requires Contains(hay, needle)
    ensures ContainsIgnoringCase(hay, needle)
  {
    ContainsIffOccurs(hay, needle);
    var i :| OccursAt(hay, needle, i);
    var lh, ln := Lower(hay), Lower(needle);
    assert lh[i..i + |ln|] == ln by {
      forall k | 0 <= k < |ln| ensures lh[i..i + |ln|][k] == ln[k] {
        assert hay[i..i + |needle|][k] == needle[k];
      }
    }
    assert OccursAt(lh, ln, i);
    ContainsIffOccurs(lh, ln);
  }

  /** The case-insensitive match does not depend on the case of the needle. */
  lemma ContainsIgnoringCaseOfLowered(hay: string, needle: string)
    ensures ContainsIgnoringCase(hay, Lower(needle)) == ContainsIgnoringCase(hay, needle)
  {
    LowerIdempotent(needle);
  }
}
