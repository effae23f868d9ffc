/** The regular expression `\bcut\b` searched case-insensitively, as the
    transcript filter in VideoCutter.cut_video_recognize applies it. */
module WordMatch {

  /** `\w`: letters, digits and the underscore (ASCII range). */
  predicate IsWordChar(c: char) {
    ('a' <= c <= 'z') || ('A' <= c <= 'Z') || ('0' <= c <= '9') || c == '_'
  }

  /** Case folding used by `re.IGNORECASE` (ASCII range). */
  function Fold(c: char): (r: char)
    ensures 'A' <= c <= 'Z' ==> r as int == c as int + 32
    ensures !('A' <= c <= 'Z') ==> r == c
    ensures IsWordChar(r) <==> IsWordChar(c)
  {
    if 'A' <= c <= 'Z' then (c as int + 32) as char else c
  }

  /** The word the filter looks for. */
  const Word: string := "cut"

  /** `\b` at position `i`: a word character on exactly one side of it. */
  predicate AtBoundary(s: string, i: nat)
    requires i <= |s|
  {
    (i > 0 && IsWordChar(s[i - 1])) != (i < |s| && IsWordChar(s[i]))
  }

  /** The pattern `\bcut\b` matches `s` starting at position `i`. */
  predicate MatchesAt(s: string, i: nat) {
    && i + |Word| <= |s|
    && AtBoundary(s, i)
    && (forall k :: 0 <= k < |Word| ==> Fold(s[i + k]) == Fold(Word[k]))
    && AtBoundary(s, i + |Word|)
  }

  /** Reference meaning of `re.search(r"\bcut\b", s, re.IGNORECASE)` succeeding. */
  ghost predicate MentionsCut(s: string) {
    exists i :: 0 <= i <= |s| && MatchesAt(s, i)
  }

  /** The search, scanning start positions from `i` on. */
  function SearchFrom(s: string, i: nat): (found: bool)
    requires i <= |s|
    ensures found <==> exists j :: i <= j <= |s| && MatchesAt(s, j)
    decreases |s| - i
  {
    if MatchesAt(s, i) then true
    else if i == |s| then false
    else SearchFrom(s, i + 1)
  }

  /** `re.search(r"\bcut\b", s, re.IGNORECASE) is not None`. */
  function Search(s: string): (found: bool)
    ensures found <==> MentionsCut(s)
  {
    SearchFrom(s, 0)
  }

  /** A match is exactly the three letters c, u, t in any case with no word
      character directly before or after them: a longer word containing them
      ("scuttle", "cuts", "_cut") does not match. */
  lemma MatchesAtIsWholeWord(s: string, i: nat)
    ensures MatchesAt(s, i) <==>
      && i + 3 <= |s|
      && Fold(s[i]) == 'c' && Fold(s[i + 1]) == 'u' && Fold(s[i + 2]) == 't'
      && (i == 0 || !IsWordChar(s[i - 1]))
      && (i + 3 == |s| || !IsWordChar(s[i + 3]))
  {
    assert Word == ['c', 'u', 't'];
    if MatchesAt(s, i) {
      assert Fold(s[i + 0]) == Fold(Word[0]);
      assert Fold(s[i + 1]) == Fold(Word[1]);
      assert Fold(s[i + 2]) == Fold(Word[2]);
    }
    if i + 3 <= |s| && Fold(s[i]) == 'c' && Fold(s[i + 1]) == 'u' && Fold(s[i + 2]) == 't' {
      assert IsWordChar(s[i]) && IsWordChar(s[i + 2]);
      assert forall k :: 0 <= k < |Word| ==> Fold(s[i + k]) == Fold(Word[k]);
    }
  }

  lemma ScuttleDoesNotMention()
    ensures !MentionsCut("scuttle")
  {
    forall i | 0 <= i <= 7
      ensures !MatchesAt("scuttle", i)
    {
      MatchesAtIsWholeWord("scuttle", i);
    }
  }

  lemma MentionExamples()
    ensures MentionsCut("please cut now")
    ensures MentionsCut("CUT.")
  {
    MatchesAtIsWholeWord("please cut now", 7);
    MatchesAtIsWholeWord("CUT.", 0);
  }
}
