/** Text helpers for the catalog builder: ASCII lower-casing (what
    `toLowerCase` does to the characters that matter here) and a
    case-insensitive substring test (what a `/word/i` regular expression
    without the `u` flag decides for a plain word). */
module Text {

  /** Lower-cases an ASCII upper-case letter and leaves every other character alone. */
  function LowerChar(c: char): char
  {
    if 'A' <= c <= 'Z' then (c as int - 'A' as int + 'a' as int) as char else c
  }

  /** Only the letter itself and its upper-case form lower-case to a letter. */
  lemma LowerCharInverse(c: char, letter: char)
    requires 'a' <= letter <= 'z' && LowerChar(c) == letter
    ensures c == letter || c == (letter as int - 'a' as int + 'A' as int) as char
  {
  }

  function Lower(s: string): (lowered: string)
    ensures |lowered| == |s|
    ensures forall i :: 0 <= i < |s| ==> lowered[i] == LowerChar(s[i])
  {
    seq(|s|, i requires 0 <= i < |s| => LowerChar(s[i]))
  }

  /** `word` occurs in `text` starting at index `i` when case is ignored. */
  ghost predicate OccursAt(text: string, word: string, i: int)
  {
    0 <= i && i + |word| <= |text| && Lower(text[i..i + |word|]) == Lower(word)
  }

  /** `word` occurs somewhere in `text` when case is ignored. */
  ghost predicate Mentions(text: string, word: string)
  {
    exists i :: OccursAt(text, word, i)
  }

  /** Occurrences in `text[1..]` are the occurrences in `text` shifted by one. */
  lemma OccursShift(text: string, word: string)
    requires |text| > 0
    ensures forall i :: OccursAt(text[1..], word, i) ==> OccursAt(text, word, i + 1)
    ensures forall i :: 1 <= i && OccursAt(text, word, i) ==> OccursAt(text[1..], word, i - 1)
  {
    forall i | OccursAt(text[1..], word, i)
      ensures OccursAt(text, word, i + 1)
    {
      assert text[1..][i..i + |word|] == text[i + 1..i + 1 + |word|];
    }
    forall i | 1 <= i && OccursAt(text, word, i)
      ensures OccursAt(text[1..], word, i - 1)
    {
      assert text[1..][i - 1..i - 1 + |word|] == text[i..i + |word|];
    }
  }

  /** Each character of an occurrence matches the word's character at the same offset. */
  lemma OccurrenceChar(text: string, word: string, i: int, j: int)
    requires OccursAt(text, word, i) && 0 <= j < |word|
    ensures LowerChar(text[i + j]) == LowerChar(word[j])
  {
    assert Lower(text[i..i + |word|])[j] == Lower(word)[j];
  }

  /** A word is absent when the text never holds its letters `j` and `m` at
      the word's distance apart: wherever letter `j` matches, letter `m`
      does not match at the offset it would need. */
  lemma AbsentByLetters(text: string, word: string, j: int, m: int)
    requires 0 <= j < |word| && 0 <= m < |word|
    requires forall k :: 0 <= k < |text| && LowerChar(text[k]) == LowerChar(word[j]) ==>
               !(0 <= k - j + m < |text| && LowerChar(text[k - j + m]) == LowerChar(word[m]))
    ensures !Mentions(text, word)
  {
    forall i | OccursAt(text, word, i)
      ensures false
    {
      OccurrenceChar(text, word, i, j);
      OccurrenceChar(text, word, i, m);
    }
  }

  /** Case-insensitive substring search, scanning `text` from the left. */
  function ContainsIgnoringCase(text: string, word: string): (found: bool)
    ensures found <==> Mentions(text, word)
    decreases |text|
  {
    if |text| < |word| then false
    else if Lower(text[..|word|]) == Lower(word) then
      assert OccursAt(text, word, 0);
      true
    else
      OccursShift(text, word);
      ContainsIgnoringCase(text[1..], word)
  }
}
