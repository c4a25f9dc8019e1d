/** The two string operations the grading code applies to form input:
    Python's `str.strip()` on the student name and `str.lower()` on a subject. */
module Text {

  /** Python's `str.isspace()` for one character: exactly the characters that
      `str.strip()` removes when it is called without arguments. */
  predicate IsSpace(c: char)
  {
    || c == '\t' || c == '\n' || c == '\U{000B}' || c == '\U{000C}' || c == '\r'
    || ('\U{001C}' <= c <= '\U{001F}')
    || c == ' ' || c == '\U{0085}' || c == '\U{00A0}' || c == '\U{1680}'
    || ('\U{2000}' <= c <= '\U{200A}')
    || c == '\U{2028}' || c == '\U{2029}' || c == '\U{202F}' || c == '\U{205F}'
    || c == '\U{3000}'
  }

  predicate AllSpace(s: string)
  {
    forall i :: 0 <= i < |s| ==> IsSpace(s[i])
  }

  /** The first index from `i` on that does not hold white space, or `|s|`. */
  function SkipSpaces(s: string, i: nat): (k: nat)
    requires i <= |s|
    ensures i <= k <= |s|
    ensures forall j :: i <= j < k ==> IsSpace(s[j])
    ensures k < |s| ==> !IsSpace(s[k])
    decreases |s| - i
  {
    if i == |s| || !IsSpace(s[i]) then i else SkipSpaces(s, i + 1)
  }

  /** Going back from `j` but not past `lo`, the end of the last character
      that is not white space, or `lo`. */
  function SkipSpacesBack(s: string, lo: nat, j: nat): (k: nat)
    requires lo <= j <= |s|
    ensures lo <= k <= j
    ensures forall m :: k <= m < j ==> IsSpace(s[m])
    ensures k > lo ==> !IsSpace(s[k - 1])
    decreases j
  {
    if j == lo || !IsSpace(s[j - 1]) then j else SkipSpacesBack(s, lo, j - 1)
  }

  /** Where the text that `Strip` keeps starts. */
  function StripStart(s: string): nat
  {
    SkipSpaces(s, 0)
  }

  /** Python's `str.strip()` with no arguments: what it keeps is one
      contiguous piece of `s`, and all it drops on either side is white
      space. */
  function Strip(s: string): (r: string)
    ensures r == [] || (!IsSpace(r[0]) && !IsSpace(r[|r| - 1]))
    ensures r == [] <==> AllSpace(s)
    ensures StripStart(s) + |r| <= |s| && r == s[StripStart(s)..StripStart(s) + |r|]
    ensures forall i :: 0 <= i < StripStart(s) ==> IsSpace(s[i])
    ensures forall i :: StripStart(s) + |r| <= i < |s| ==> IsSpace(s[i])
  {
    var lo := StripStart(s);
    var hi := SkipSpacesBack(s, lo, |s|);
    assert lo < hi ==> s[lo..hi][0] == s[lo] && s[lo..hi][hi - lo - 1] == s[hi - 1];
    s[lo..hi]
  }

  /** Python's `str.lower()` for one character, as far as it decides equality
      with a word of ASCII lower-case letters: the ASCII capitals become their
      lower-case letters and KELVIN SIGN (U+212A) becomes 'k'. Python lowers
      no other character to a single ASCII letter; U+0130 lowers to 'i'
      followed by U+0307, which no ASCII word contains. Every other character
      is kept, which cannot make it equal to an ASCII letter. */
  function FoldChar(c: char): char
  {
    if 'A' <= c <= 'Z' then (c as int + 32) as char
    else if c == '\U{212A}' then 'k'
    else c
  }

  /** `s.lower()`, character by character with `FoldChar`. */
  function Lower(s: string): string
  {
    seq(|s|, i requires 0 <= i < |s| => FoldChar(s[i]))
  }

  /** The spellings of an ASCII lower-case letter that Python's `lower()` maps
      onto it. */
  function CaseVariants(c: char): set<char>
    requires 'a' <= c <= 'z'
  {
    if c == 'k' then {'k', 'K', '\U{212A}'}
    else {c, (c as int - 32) as char}
  }

  /** A character lowers to an ASCII lower-case letter exactly when it is one
      of that letter's spellings. */
  lemma FoldCharVariants(x: char, c: char)
    requires 'a' <= c <= 'z'
    ensures FoldChar(x) == c <==> x in CaseVariants(c)
  {
  }

  /** A string lowers to a word of ASCII lower-case letters exactly when it
      is as long as the word and each of its characters spells the word's
      letter at that position, in either case. */
  lemma LowerEqualsWord(s: string, w: string)
    requires forall i :: 0 <= i < |w| ==> 'a' <= w[i] <= 'z'
    ensures Lower(s) == w <==>
              |s| == |w| && forall i :: 0 <= i < |w| ==> s[i] in CaseVariants(w[i])
  {
  }

}
