/** Character classes and string helpers shared by the street normaliser, the
    security tiering and the report intake.

    Python's character predicates and `str.lower` are defined over all of
    Unicode; this module models them over U+0000..U+00FF (ASCII and Latin-1),
    which covers the Spanish and English text the application handles. */
module Text {

  /** Python's `\s` and `str.isspace`: space, \t \n \v \f \r, the ASCII
      separators U+001C..U+001F, NEL (U+0085) and the no-break space (U+00A0). */
  predicate IsSpace(c: char) {
    c == ' ' || ('\U{9}' <= c <= '\U{D}') || ('\U{1C}' <= c <= '\U{1F}')
    || c == '\U{85}' || c == '\U{A0}'
  }

  predicate IsAscii(c: char) {
    c <= '\U{7F}'
  }

  predicate IsAsciiUpper(c: char) {
    'A' <= c <= 'Z'
  }

  /** Python's `\d` over Latin-1: the decimal digits. */
  predicate IsDigit(c: char) {
    '0' <= c <= '9'
  }

  /** Python's `\w` on a `str` pattern: alphanumeric (letters, decimal digits,
      other numerics such as superscripts and vulgar fractions) or `_`. */
  predicate IsWordChar(c: char) {
    ('a' <= c <= 'z') || IsAsciiUpper(c) || IsDigit(c) || c == '_'
    || c == '\U{AA}' || c == '\U{B2}' || c == '\U{B3}' || c == '\U{B5}'
    || c == '\U{B9}' || c == '\U{BA}' || ('\U{BC}' <= c <= '\U{BE}')
    || ('\U{C0}' <= c <= '\U{FF}' && c != '\U{D7}' && c != '\U{F7}')
  }

  /** Python's `str.lower` on one character: ASCII capitals and the Latin-1
      capitals U+00C0..U+00DE (except the multiplication sign) move down by 32. */
  function LowerChar(c: char): (d: char)
    ensures !IsAsciiUpper(d)
    ensures IsAscii(c) <==> IsAscii(d)
    ensures IsWordChar(c) <==> IsWordChar(d)
    ensures IsSpace(c) <==> IsSpace(d)
  {
    if IsAsciiUpper(c) || ('\U{C0}' <= c <= '\U{DE}' && c != '\U{D7}') then
      (c as int + 32) as char
    else
      c
  }

  /** `s.lower()`. */
  function LowerStr(s: string): string {
    seq(|s|, i requires 0 <= i < |s| => LowerChar(s[i]))
  }

  /** A string with no ASCII capital is its own lower case. */
  lemma LowerStrFixed(s: string)
    requires forall i :: 0 <= i < |s| ==> IsAscii(s[i]) && !IsAsciiUpper(s[i])
    ensures LowerStr(s) == s
  {
  }

  /** `w` occurs in `text` starting at index `i`. */
  predicate OccursAt(text: string, w: string, i: int) {
    0 <= i <= |text| - |w| && text[i..i + |w|] == w
  }

  /** Python's `w in text` on strings: `w` occurs in `text` as a contiguous
      substring (the empty string occurs in every string). */
  function Contains(text: string, w: string): (b: bool)
    ensures b <==> exists i :: OccursAt(text, w, i)
    decreases |text|
  {
    if |w| > |text| then false
    else if text[..|w|] == w then
      assert OccursAt(text, w, 0);
      true
    else
      var b := Contains(text[1..], w);
      assert b <==> exists i :: OccursAt(text, w, i) by {
        if b {
          var j :| OccursAt(text[1..], w, j);
          assert text[j + 1..j + 1 + |w|] == text[1..][j..j + |w|];
          assert OccursAt(text, w, j + 1);
        }
        forall i | OccursAt(text, w, i)
          ensures b
        {
          assert i != 0;
          assert text[1..][i - 1..i - 1 + |w|] == text[i..i + |w|];
          assert OccursAt(text[1..], w, i - 1);
        }
      }
      b
  }

  /** `sum(1 for word in keywords if word in text)`: how many entries of the
      keyword list occur as substrings of `text`. */
  function KeywordCount(keywords: seq<string>, text: string): (n: nat)
    ensures n <= |keywords|
    ensures n == 0 <==> forall j :: 0 <= j < |keywords| ==> !Contains(text, keywords[j])
    ensures n == |keywords| <==> forall j :: 0 <= j < |keywords| ==> Contains(text, keywords[j])
  {
    if keywords == [] then 0
    else
      var rest := KeywordCount(keywords[1..], text);
      assert forall j :: 1 <= j < |keywords| ==> keywords[j] == keywords[1..][j - 1];
      (if Contains(text, keywords[0]) then 1 else 0) + rest
  }

  /** When the only keyword of the list that occurs in `text` is `w`, the count
      is the number of times `w` is listed. */
  lemma {:induction false} KeywordCountOnly(keywords: seq<string>, text: string, w: string)
    requires Contains(text, w)
    requires forall j :: 0 <= j < |keywords| && keywords[j] != w ==> !Contains(text, keywords[j])
    ensures KeywordCount(keywords, text) == multiset(keywords)[w]
  {
    if keywords != [] {
      assert keywords == [keywords[0]] + keywords[1..];
      KeywordCountOnly(keywords[1..], text, w);
    }
  }
}
