/**
  String operations the views rely on, restricted to ASCII: case folding
  (`lowercased`, `uppercased`), case-insensitive containment
  (`localizedCaseInsensitiveContains`), the ordering of `String <`, and
  `components(separatedBy: " ")` with its inverse.
 */
module Text {

  /** ASCII lower-casing of one character; every other character is kept. */
  function LowerChar(c: char): char
  {
    if 'A' <= c <= 'Z' then (c as int + 32) as char else c
  }

  /** ASCII upper-casing of one character; every other character is kept. */
  function UpperChar(c: char): char
  {
    if 'a' <= c <= 'z' then (c as int - 32) as char else c
  }

  /** `lowercased()` under ASCII folding: each character folded on its own. */
  function Lower(s: string): (r: string)
    ensures |r| == |s|
    ensures forall i :: 0 <= i < |s| ==> r[i] == LowerChar(s[i])
    ensures forall i :: 0 <= i < |r| ==> !('A' <= r[i] <= 'Z')
  {
    seq(|s|, i requires 0 <= i < |s| => LowerChar(s[i]))
  }

  /** `needle` occurs in `hay` starting at index `i`. */
  ghost predicate OccursAt(hay: string, needle: string, i: int)
  {
    0 <= i && i + |needle| <= |hay| && hay[i..i + |needle|] == needle
  }

  /** Substring containment. */
  function Contains(hay: string, needle: string): (r: bool)
    ensures r <==> exists i :: OccursAt(hay, needle, i)
    decreases |hay|
  {
    if |needle| <= |hay| && hay[..|needle|] == needle then
      assert OccursAt(hay, needle, 0);
      true
    else if |hay| == 0 then
      false
    else
      var r := Contains(hay[1..], needle);
      assert r ==> exists i :: OccursAt(hay, needle, i) by {
        if r {
          var i :| OccursAt(hay[1..], needle, i);
          assert hay[1..][i..i + |needle|] == hay[i + 1..i + 1 + |needle|];
          assert OccursAt(hay, needle, i + 1);
        }
      }
      assert (exists i :: OccursAt(hay, needle, i)) ==> r by {
        if exists i :: OccursAt(hay, needle, i) {
          var i :| OccursAt(hay, needle, i);
          assert i != 0;
          assert hay[1..][i - 1..i - 1 + |needle|] == hay[i..i + |needle|];
          assert OccursAt(hay[1..], needle, i - 1);
        }
      }
      r
  }

  /**
    Foundation's `localizedCaseInsensitiveContains` under ASCII folding. An
    empty needle is never found (Foundation's `range(of:)` reports no range
    for it); the views guard every call with `isEmpty`.
   */
  function CaseInsensitiveContains(hay: string, needle: string): (r: bool)
    ensures r <==> |needle| > 0 && exists i :: FoldedOccursAt(hay, needle, i)
  {
    FoldedOccurrences(hay, needle);
    |needle| > 0 && Contains(Lower(hay), Lower(needle))
  }

  /** `needle` occurs in `hay` at index `i` once both are folded character by character. */
  ghost predicate FoldedOccursAt(hay: string, needle: string, i: int)
  {
    && 0 <= i && i + |needle| <= |hay|
    && forall k :: 0 <= k < |needle| ==> LowerChar(hay[i + k]) == LowerChar(needle[k])
  }

  /** Searching the folded strings finds exactly the folded occurrences. */
  lemma FoldedOccurrences(hay: string, needle: string)
    ensures forall i :: OccursAt(Lower(hay), Lower(needle), i) <==> FoldedOccursAt(hay, needle, i)
  {
    forall i | 0 <= i && i + |needle| <= |hay|
      ensures OccursAt(Lower(hay), Lower(needle), i) <==> FoldedOccursAt(hay, needle, i)
    {
      var window := Lower(hay)[i..i + |needle|];
      assert forall k :: 0 <= k < |needle| ==> window[k] == LowerChar(hay[i + k]);
      assert forall k :: 0 <= k < |needle| ==> Lower(needle)[k] == LowerChar(needle[k]);
      if FoldedOccursAt(hay, needle, i) {
        assert window == Lower(needle);
      }
    }
  }

  /** Strict lexicographic order on characters, the model of `String <`. */
  predicate LexLess(a: string, b: string)
    decreases |a|
  {
    if |a| == 0 then |b| > 0
    else |b| > 0 && (a[0] < b[0] || (a[0] == b[0] && LexLess(a[1..], b[1..])))
  }

  /** Folding twice is folding once. */
  lemma LowerIdempotent(s: string)
    ensures Lower(Lower(s)) == Lower(s)
  {
  }

  /** Character-code order: every upper-case ASCII letter sorts before every lower-case one. */
  lemma UpperBeforeLower(a: string, b: string)
    requires |a| > 0 && |b| > 0 && 'A' <= a[0] <= 'Z' && 'a' <= b[0] <= 'z'
    ensures LexLess(a, b) && !LexLess(b, a)
  {
  }

  lemma {:induction false} LexLessIrreflexive(a: string)
    ensures !LexLess(a, a)
    decreases |a|
  {
    if |a| > 0 {
      LexLessIrreflexive(a[1..]);
    }
  }

  lemma {:induction false} LexLessTransitive(a: string, b: string, c: string)
    requires LexLess(a, b) && LexLess(b, c)
    ensures LexLess(a, c)
    decreases |a|
  {
    if |a| > 0 && a[0] == b[0] && b[0] == c[0] {
      LexLessTransitive(a[1..], b[1..], c[1..]);
    }
  }

  /** Any two different strings are ordered one way or the other. */
  lemma {:induction false} LexLessTotal(a: string, b: string)
    ensures a == b || LexLess(a, b) || LexLess(b, a)
    decreases |a|
  {
    if |a| > 0 && |b| > 0 && a[0] == b[0] {
      LexLessTotal(a[1..], b[1..]);
      if a[1..] == b[1..] {
        assert a == [a[0]] + a[1..] && b == [b[0]] + b[1..];
      }
    }
  }

  /** Glues parts back together with single spaces between them. */
  function JoinSpaces(parts: seq<string>): string
    requires |parts| >= 1
  {
    if |parts| == 1 then parts[0] else parts[0] + " " + JoinSpaces(parts[1..])
  }

  /**
    `components(separatedBy: " ")`: the maximal space-free pieces between
    single spaces, so there is always at least one (possibly empty) piece.
   */
  function SplitSpaces(s: string): (r: seq<string>)
    ensures |r| >= 1
    ensures |s| == 0 ==> r == [""]
    decreases |s|
  {
    if |s| == 0 then [""]
    else
      var rest := SplitSpaces(s[1..]);
      if s[0] == ' ' then [""] + rest else [[s[0]] + rest[0]] + rest[1..]
  }

  /** Joining the pieces with single spaces gives back the text. */
  lemma {:induction false} SplitJoin(s: string)
    ensures JoinSpaces(SplitSpaces(s)) == s
    decreases |s|
  {
    if |s| > 0 {
      SplitJoin(s[1..]);
      var rest := SplitSpaces(s[1..]);
      var r := SplitSpaces(s);
      assert s == [s[0]] + s[1..];
      if s[0] == ' ' {
        assert r[1..] == rest;
      } else if |rest| > 1 {
        assert r[1..] == rest[1..];
        assert JoinSpaces(rest) == rest[0] + " " + JoinSpaces(rest[1..]);
        assert JoinSpaces(r) == ([s[0]] + rest[0]) + " " + JoinSpaces(rest[1..]);
      }
    }
  }

  /** No piece holds a space. */
  lemma {:induction false} SplitPartsHaveNoSpace(s: string)
    ensures forall k :: 0 <= k < |SplitSpaces(s)| ==> ' ' !in SplitSpaces(s)[k]
    decreases |s|
  {
    if |s| > 0 {
      SplitPartsHaveNoSpace(s[1..]);
      var rest := SplitSpaces(s[1..]);
      var r := SplitSpaces(s);
      if s[0] == ' ' {
        assert forall k :: 1 <= k < |r| ==> r[k] == rest[k - 1];
      } else {
        assert forall k :: 1 <= k < |r| ==> r[k] == rest[k];
        assert ' ' !in rest[0];
      }
    }
  }

  /** There is more than one piece exactly when the text holds a space. */
  lemma {:induction false} SplitCountIffSpace(s: string)
    ensures |SplitSpaces(s)| > 1 <==> ' ' in s
    decreases |s|
  {
    if |s| > 0 {
      SplitCountIffSpace(s[1..]);
      assert s == [s[0]] + s[1..];
      assert ' ' in s <==> s[0] == ' ' || ' ' in s[1..];
    }
  }
}
