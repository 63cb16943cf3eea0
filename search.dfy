/**
 The label test behind the search field. An option's label (called `caption` here, since
 `label` is a Dafny keyword) matches a search text when the text,
 read literally (every regular-expression metacharacter escaped), occurs somewhere in
 the caption once both are case-folded. Case folding is a per-character function `fold`
 supplied by the caller, standing for the canonicalisation of a case-insensitive
 regular expression.
 */
module Search {

  /** The characters of `caption` from position `i` on spell `text`, up to case folding. */
  predicate MatchesAt(caption: string, text: string, fold: char -> char, i: nat) {
    i + |text| <= |caption| && forall k :: 0 <= k < |text| ==> fold(caption[i + k]) == fold(text[k])
  }

  /** `text` occurs in `caption` at some position, up to case folding. */
  ghost predicate ContainsIgnoringCase(caption: string, text: string, fold: char -> char) {
    exists i: nat :: MatchesAt(caption, text, fold, i)
  }

  /** Whether `text` occurs in `caption` at position `i` or later, up to case folding. */
  function MatchesFrom(caption: string, text: string, fold: char -> char, i: nat): (b: bool)
    ensures b <==> exists j: nat :: i <= j && MatchesAt(caption, text, fold, j)
    decreases |caption| - i
  {
    if i + |text| > |caption| then false
    else MatchesAt(caption, text, fold, i) || MatchesFrom(caption, text, fold, i + 1)
  }

  /**
   The outcome of matching `caption` against the escaped, case-insensitive pattern built
   from `text`: true exactly when `text` is a case-insensitive literal substring of `caption`.
   */
  function Matches(caption: string, text: string, fold: char -> char): (b: bool)
    ensures b <==> ContainsIgnoringCase(caption, text, fold)
  {
    MatchesFrom(caption, text, fold, 0)
  }

  /** The search is literal: a caption that contains the text verbatim always matches. */
  lemma LiteralOccurrenceMatches(caption: string, text: string, fold: char -> char, before: string, after: string)
    requires caption == before + text + after
    ensures Matches(caption, text, fold)
  {
    forall k | 0 <= k < |text| ensures caption[|before| + k] == text[k] {
    }
    assert MatchesAt(caption, text, fold, |before|);
  }

  /** The search ignores case: changing letters of the caption to ones with the same fold does not change the outcome. */
  lemma MatchIgnoresCase(caption: string, caption': string, text: string, fold: char -> char)
    requires |caption| == |caption'|
    requires forall k :: 0 <= k < |caption| ==> fold(caption[k]) == fold(caption'[k])
    ensures Matches(caption, text, fold) == Matches(caption', text, fold)
  {
    if Matches(caption, text, fold) {
      var i: nat :| MatchesAt(caption, text, fold, i);
      assert MatchesAt(caption', text, fold, i);
    }
    if Matches(caption', text, fold) {
      var i: nat :| MatchesAt(caption', text, fold, i);
      assert MatchesAt(caption, text, fold, i);
    }
  }

  /** A fold for the letters a-z and A-Z, mapping each lower-case letter to its upper-case form. */
  function AsciiCaseFold(c: char): (r: char)
    ensures 'a' <= c <= 'z' ==> 'A' <= r <= 'Z' && r as int + 32 == c as int
    ensures !('a' <= c <= 'z') ==> r == c
  {
    if 'a' <= c <= 'z' then (c as int - 32) as char else c
  }

  /**
   The labels of the documented example: "other", in either case, occurs in the second post's
   label and not in the first. (The texts are parameters so that the verifier does not unfold
   the scan on literals.)
   */
  lemma DocumentedLabels(first: string, second: string, lower: string, upper: string)
    requires first == "My blog post" && second == "My other blog post"
    requires lower == "other" && upper == "OTHER"
    ensures Matches(second, lower, AsciiCaseFold) && Matches(second, upper, AsciiCaseFold)
    ensures !Matches(first, lower, AsciiCaseFold)
  {
    assert MatchesAt(second, lower, AsciiCaseFold, 3);
    assert MatchesAt(second, upper, AsciiCaseFold, 3);
    forall i: nat ensures !MatchesAt(first, lower, AsciiCaseFold, i) {
      if i + 5 <= |first| {
        assert lower[0] == 'o' && lower[1] == 't';
        if i == 5 {
          assert first[6] == 'g';
        } else {
          assert first[i] in "My blg ";
        }
      }
    }
  }
}
