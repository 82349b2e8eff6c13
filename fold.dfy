/** Case folding and substring search, as the reader uses them for its
    commands and keyword search, which both ignore case. Folding covers the
    ASCII letters only. */
module Fold {

  /** One character folded to lower case: `A`..`Z` become `a`..`z`, every other character is kept. */
  function LowerChar(c: char): char
  {
    if 'A' <= c <= 'Z' then (c as int + 32) as char else c
  }

  /** `s.lower()`, character by character. */
  function Lower(s: string): (r: string)
    ensures |r| == |s|
    ensures forall i :: 0 <= i < |s| ==> r[i] == LowerChar(s[i])
    decreases |s|
  {
    if s == [] then [] else [LowerChar(s[0])] + Lower(s[1..])
  }

  /** `pattern` occurs in `text` starting at index `k`. */
  predicate OccursAt(text: string, pattern: string, k: nat)
  {
    k + |pattern| <= |text| && text[k..k + |pattern|] == pattern
  }

  /** `pattern in text`: `pattern` occurs somewhere in `text` as a contiguous run. */
  predicate Contains(text: string, pattern: string)
  {
    exists k: nat :: k <= |text| && OccursAt(text, pattern, k)
  }

  /** A text without capitals folds to itself. */
  lemma LowerOfLower(s: string)
    requires forall i :: 0 <= i < |s| ==> !('A' <= s[i] <= 'Z')
    ensures Lower(s) == s
  {
  }

  /** A one-letter command is recognised in either case and in no other spelling:
      a line lowers to "n" exactly when it is "n" or "N". */
  lemma LowerIsLetter(s: string, c: char)
    requires 'a' <= c <= 'z'
    ensures Lower(s) == [c] <==> s == [c] || s == [(c as int - 32) as char]
  {
  }

  /** The empty pattern occurs in every text, as `"" in line` is true in Python. */
  lemma ContainsEmpty(text: string)
    ensures Contains(text, "")
  {
    assert OccursAt(text, "", 0);
  }
}
