/** The search filter of the listing query: `field LIKE '%term%'`, which in
    SQLite is a substring test that ignores the case of ASCII letters. */
module Like {
  import opened Ascii

  /** `t` occurs in `s` starting at position `i`. */
  predicate OccursAt(t: string, s: string, i: int) {
    0 <= i <= |s| - |t| && s[i..i + |t|] == t
  }

  /** `t` occurs in `s` as a contiguous run of characters. */
  ghost predicate IsSubstring(t: string, s: string) {
    exists i :: OccursAt(t, s, i)
  }

  /** The window of `s` starting at `i` equals `term` character by
      character, up to ASCII case. */
  predicate MatchesAt(s: string, term: string, i: int) {
    0 <= i <= |s| - |term| && forall k :: 0 <= k < |term| ==> LowerChar(s[i + k]) == LowerChar(term[k])
  }

  /** `s LIKE '%term%'` with no wildcard inside `term`. */
  predicate ContainsIgnoringCase(s: string, term: string)
    ensures ContainsIgnoringCase(s, term) ==> |term| <= |s|
  {
    exists i :: 0 <= i <= |s| - |term| && MatchesAt(s, term, i)
  }

  /** Matching at one position is a plain comparison of the lower-cased texts there. */
  lemma MatchesAtIff(s: string, term: string, i: int)
    requires 0 <= i <= |s| - |term|
    ensures MatchesAt(s, term, i) <==> OccursAt(Lower(term), Lower(s), i)
  {
    var ls, lt, n := Lower(s), Lower(term), |term|;
    if MatchesAt(s, term, i) {
      forall k | 0 <= k < n
        ensures ls[i..i + n][k] == lt[k]
      {
        assert ls[i..i + n][k] == ls[i + k];
      }
      assert ls[i..i + n] == lt;
    }
    if OccursAt(lt, ls, i) {
      forall k | 0 <= k < n
        ensures LowerChar(s[i + k]) == LowerChar(term[k])
      {
        assert ls[i..i + n][k] == ls[i + k];
      }
    }
  }

  /** The match is exactly a plain substring test on the lower-cased texts. */
  lemma ContainsIgnoringCaseIff(s: string, term: string)
    ensures ContainsIgnoringCase(s, term) <==> IsSubstring(Lower(term), Lower(s))
  {
    if ContainsIgnoringCase(s, term) {
      var i :| 0 <= i <= |s| - |term| && MatchesAt(s, term, i);
      MatchesAtIff(s, term, i);
    }
    if IsSubstring(Lower(term), Lower(s)) {
      var i :| OccursAt(Lower(term), Lower(s), i);
      MatchesAtIff(s, term, i);
    }
  }

  /** A verbatim occurrence always matches. */
  lemma VerbatimOccurrenceMatches(s: string, term: string)
    requires IsSubstring(term, s)
    ensures ContainsIgnoringCase(s, term)
  {
    var i :| OccursAt(term, s, i);
    assert MatchesAt(s, term, i);
  }

  /** The case of the search term does not matter. */
  lemma TermCaseIrrelevant(s: string, term: string)
    ensures ContainsIgnoringCase(s, term) <==> ContainsIgnoringCase(s, Lower(term))
  {
    LowerIdempotent(term);
    ContainsIgnoringCaseIff(s, term);
    ContainsIgnoringCaseIff(s, Lower(term));
  }
}
