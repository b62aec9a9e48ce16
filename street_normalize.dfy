/** The street-name normaliser of street_bundling.py: a raw street fragment is
    lower-cased, transliterated to ASCII, stripped of punctuation, stripped of
    one leading street-type word and whitespace-collapsed. */
module StreetNormalize {
  import opened Text
  import opened Wrappers

  /** Transliteration of one character to ASCII, after the table of the
      `unidecode` library for U+0000..U+00FF: ASCII stays, the C1 controls
      and the soft hyphen vanish, the Latin-1 symbols are spelt out (`§`
      becomes `SS`, `°` becomes `deg`, `½` becomes ` 1/2`), accented
      letters lose their accent and ligatures and special letters expand.
      Characters beyond Latin-1 become the empty string. */
  function TranslitChar(c: char): (r: string)
    ensures forall i :: 0 <= i < |r| ==> IsAscii(r[i])
  {
    if IsAscii(c) then [c]
    else if c < '\U{A0}' || c == '\U{AD}' then ""
    else if c < '\U{C0}' then TranslitSymbol(c)
    else if 'À' <= c <= 'Å' then "A"
    else if c == 'Æ' then "AE"
    else if c == 'Ç' then "C"
    else if 'È' <= c <= 'Ë' then "E"
    else if 'Ì' <= c <= 'Ï' then "I"
    else if c == 'Ð' then "D"
    else if c == 'Ñ' then "N"
    else if 'Ò' <= c <= 'Ö' then "O"
    else if c == '×' then "x"
    else if c == 'Ø' then "O"
    else if 'Ù' <= c <= 'Ü' then "U"
    else if c == 'Ý' then "Y"
    else if c == 'Þ' then "Th"
    else if c == 'ß' then "ss"
    else if 'à' <= c <= 'å' then "a"
    else if c == 'æ' then "ae"
    else if c == 'ç' then "c"
    else if 'è' <= c <= 'ë' then "e"
    else if 'ì' <= c <= 'ï' then "i"
    else if c == 'ð' then "d"
    else if c == 'ñ' then "n"
    else if 'ò' <= c <= 'ö' then "o"
    else if c == '÷' then "/"
    else if c == 'ø' then "o"
    else if 'ù' <= c <= 'ü' then "u"
    else if c == 'ý' || c == 'ÿ' then "y"
    else if c == 'þ' then "th"
    else ""
  }

  /** The `unidecode` spelling of the Latin-1 symbols U+00A0..U+00BF. */
  function TranslitSymbol(c: char): (r: string)
    ensures forall i :: 0 <= i < |r| ==> IsAscii(r[i])
  {
    if c == '\U{A0}' then " "
    else if c == '¡' then "!"
    else if c == '¢' then "C/"
    else if c == '£' then "PS"
    else if c == '¤' then "$?"
    else if c == '¥' then "Y="
    else if c == '¦' then "|"
    else if c == '§' then "SS"
    else if c == '¨' then "\""
    else if c == '©' then "(c)"
    else if c == 'ª' then "a"
    else if c == '«' then "<<"
    else if c == '¬' then "!"
    else if c == '®' then "(r)"
    else if c == '¯' then "-"
    else if c == '°' then "deg"
    else if c == '±' then "+-"
    else if c == '²' then "2"
    else if c == '³' then "3"
    else if c == '´' then "'"
    else if c == 'µ' then "u"
    else if c == '¶' then "P"
    else if c == '·' then "*"
    else if c == '¸' then ","
    else if c == '¹' then "1"
    else if c == 'º' then "o"
    else if c == '»' then ">>"
    else if c == '¼' then " 1/4"
    else if c == '½' then " 1/2"
    else if c == '¾' then " 3/4"
    else if c == '¿' then "?"
    else ""
  }

  /** The Latin-1 symbols whose transliteration holds ASCII capitals:
      `¢`, `£`, `¥`, `§` and `¶`. */
  predicate IsCapitalSymbol(c: char) {
    c == '¢' || c == '£' || c == '¥' || c == '§' || c == '¶'
  }

  /** The capitals those symbols transliterate to. */
  predicate IsSymbolCapital(c: char) {
    c == 'C' || c == 'P' || c == 'S' || c == 'Y'
  }

  /** The only ASCII capitals of `t` are `C`, `P`, `S` and `Y`. */
  predicate CapitalsFromSymbols(t: string) {
    forall i :: 0 <= i < |t| && IsAsciiUpper(t[i]) ==> IsSymbolCapital(t[i])
  }

  predicate NoCapitals(t: string) {
    forall i :: 0 <= i < |t| ==> !IsAsciiUpper(t[i])
  }

  /** A lower-cased character transliterates to ASCII whose only capitals
      are those of the capital symbols, and none for any other character.
      The symbol table is checked in two halves, each in a lemma of its own,
      so that each case split stays small. */
  lemma TranslitLowerCapitals(c: char)
    ensures CapitalsFromSymbols(TranslitChar(LowerChar(c)))
    ensures !IsCapitalSymbol(c) ==> NoCapitals(TranslitChar(LowerChar(c)))
  {
    var d := LowerChar(c);
    if '\U{A0}' <= d < '\U{C0}' && d != '\U{AD}' {
      assert d == c && TranslitChar(d) == TranslitSymbol(d);
      if d < '\U{B0}' {
        LowSymbolCapitals(d);
      } else {
        HighSymbolCapitals(d);
      }
    } else if d >= '\U{C0}' {
      assert NoCapitals(TranslitChar(d));
    }
  }

  lemma LowSymbolCapitals(d: char)
    requires '\U{A0}' <= d < '\U{B0}'
    ensures CapitalsFromSymbols(TranslitSymbol(d))
    ensures !IsCapitalSymbol(d) ==> NoCapitals(TranslitSymbol(d))
  {
  }

  lemma HighSymbolCapitals(d: char)
    requires '\U{B0}' <= d < '\U{C0}'
    ensures CapitalsFromSymbols(TranslitSymbol(d))
    ensures !IsCapitalSymbol(d) ==> NoCapitals(TranslitSymbol(d))
  {
  }

  /** Step 2, `unidecode(s)`: the concatenated transliterations. */
  function Transliterate(s: string): (r: string)
    ensures forall i :: 0 <= i < |r| ==> IsAscii(r[i])
  {
    if s == [] then [] else TranslitChar(s[0]) + Transliterate(s[1..])
  }

  lemma {:induction false} TransliterateAppend(a: string, b: string)
    ensures Transliterate(a + b) == Transliterate(a) + Transliterate(b)
  {
    if a == [] {
      assert a + b == b;
    } else {
      assert (a + b)[0] == a[0] && (a + b)[1..] == a[1..] + b;
      TransliterateAppend(a[1..], b);
    }
  }

  /** ASCII text is left as it is by the transliteration. */
  lemma {:induction false} TransliterateAscii(s: string)
    requires forall i :: 0 <= i < |s| ==> IsAscii(s[i])
    ensures Transliterate(s) == s
  {
    if s != [] {
      TransliterateAscii(s[1..]);
    }
  }

  /** After lower-casing and transliteration the only ASCII capitals left are
      the `C`, `P`, `S` and `Y` spelt out for the capital symbols, and there
      are none when the text holds no such symbol. */
  lemma {:induction false} TransliterateLowerCapitals(s: string)
    ensures CapitalsFromSymbols(Transliterate(LowerStr(s)))
    ensures NoCapitalSymbol(s) ==> NoCapitals(Transliterate(LowerStr(s)))
  {
    if s != [] {
      assert LowerStr(s) == [LowerChar(s[0])] + LowerStr(s[1..]);
      assert ([LowerChar(s[0])] + LowerStr(s[1..]))[1..] == LowerStr(s[1..]);
      TranslitLowerCapitals(s[0]);
      TransliterateLowerCapitals(s[1..]);
      var head, tail := TranslitChar(LowerChar(s[0])), Transliterate(LowerStr(s[1..]));
      assert Transliterate(LowerStr(s)) == head + tail;
      assert NoCapitalSymbol(s) ==> !IsCapitalSymbol(s[0]) && NoCapitalSymbol(s[1..]);
      CapitalsOfConcat(head, tail);
    }
  }

  /** The capitals of a concatenation are those of its parts. */
  lemma CapitalsOfConcat(head: string, tail: string)
    ensures CapitalsFromSymbols(head) && CapitalsFromSymbols(tail) ==> CapitalsFromSymbols(head + tail)
    ensures NoCapitals(head) && NoCapitals(tail) ==> NoCapitals(head + tail)
  {
    assert forall i :: |head| <= i < |head| + |tail| ==> (head + tail)[i] == tail[i - |head|];
  }

  /** The characters that `re.sub(r'[^\w\s]', '', s)` keeps. */
  predicate IsKept(c: char) {
    IsWordChar(c) || IsSpace(c)
  }

  /** Step 3: delete every character that is neither a word character nor
      whitespace, keeping the others in order. */
  function RemovePunctuation(s: string): (r: string)
    ensures |r| <= |s|
    ensures forall c :: c in r <==> c in s && IsKept(c)
  {
    if s == [] then []
    else
      var rest := RemovePunctuation(s[1..]);
      assert forall c :: c in s <==> c == s[0] || c in s[1..];
      (if IsKept(s[0]) then [s[0]] else []) + rest
  }

  lemma {:induction false} RemovePunctuationAppend(a: string, b: string)
    ensures RemovePunctuation(a + b) == RemovePunctuation(a) + RemovePunctuation(b)
  {
    if a == [] {
      assert a + b == b;
    } else {
      assert (a + b)[0] == a[0] && (a + b)[1..] == a[1..] + b;
      RemovePunctuationAppend(a[1..], b);
    }
  }

  /** Text made only of word characters and whitespace has no punctuation to remove. */
  lemma {:induction false} RemovePunctuationKeepsClean(s: string)
    requires forall i :: 0 <= i < |s| ==> IsKept(s[i])
    ensures RemovePunctuation(s) == s
  {
    if s != [] {
      RemovePunctuationKeepsClean(s[1..]);
    }
  }

  /** `s` begins with `t` and a whitespace character follows it. */
  predicate PrefixThenSpace(s: string, t: string) {
    |t| < |s| && s[..|t|] == t && IsSpace(s[|t|])
  }

  /** The alternatives of the group `(calle|avda\.?|avenida|plaza|pza)` in the
      order Python's regex engine tries them, `avda.` before `avda`. */
  const PrefixAlternatives: seq<string> := ["calle", "avda.", "avda", "avenida", "plaza", "pza"]

  /** The street-type words as they can stand in a normalised key. */
  const StreetTypes: seq<string> := ["calle", "avda", "avenida", "plaza", "pza"]

  /** The first alternative, in order, that the regex matches at position 0
      with at least one whitespace character after it. */
  function FirstAlternative(s: string, alts: seq<string>): (r: Option<string>)
    ensures r.Some? ==> r.value in alts && PrefixThenSpace(s, r.value)
    ensures r.None? <==> forall t :: t in alts ==> !PrefixThenSpace(s, t)
  {
    if alts == [] then None
    else if PrefixThenSpace(s, alts[0]) then Some(alts[0])
    else
      assert forall t :: t in alts <==> t == alts[0] || t in alts[1..];
      FirstAlternative(s, alts[1..])
  }

  /** Drops the leading whitespace (Python's `lstrip()`), which is what the
      greedy `\s+` after a prefix consumes. */
  function TrimStart(s: string): (r: string)
    ensures |r| <= |s| && r == s[|s| - |r|..]
    ensures forall i :: 0 <= i < |s| - |r| ==> IsSpace(s[i])
    ensures r == [] || !IsSpace(r[0])
    ensures s != [] && IsSpace(s[0]) ==> |r| < |s|
  {
    if s != [] && IsSpace(s[0]) then TrimStart(s[1..]) else s
  }

  /** `r` is what is left of `s` once the word `t` at position 0 and the whole
      run of whitespace after it are removed. */
  predicate WordAndSpacesRemoved(s: string, t: string, r: string) {
    && PrefixThenSpace(s, t)
    && |r| < |s| - |t| && r == s[|s| - |r|..]
    && (forall i :: |t| <= i < |s| - |r| ==> IsSpace(s[i]))
    && (r == [] || !IsSpace(r[0]))
  }

  /** Step 4, `re.sub(r'^(calle|avda\.?|avenida|plaza|pza)\s+', "", s)`: one
      street-type word at position 0 that is followed by whitespace is removed
      together with all of that whitespace; otherwise `s` is unchanged. */
  function StripStreetPrefix(s: string): (r: string)
    ensures (forall t :: t in PrefixAlternatives ==> !PrefixThenSpace(s, t)) ==> r == s
    ensures (exists t :: t in PrefixAlternatives && PrefixThenSpace(s, t)) ==>
      exists t :: t in PrefixAlternatives && WordAndSpacesRemoved(s, t, r)
  {
    StripAlternative(s, PrefixAlternatives)
  }

  /** Removing the first of the words `alts` that stands at position 0 with
      whitespace after it, and that whitespace. */
  function StripAlternative(s: string, alts: seq<string>): (r: string)
    ensures (forall t :: t in alts ==> !PrefixThenSpace(s, t)) ==> r == s
    ensures (exists t :: t in alts && PrefixThenSpace(s, t)) ==>
      exists t :: t in alts && WordAndSpacesRemoved(s, t, r)
  {
    match FirstAlternative(s, alts)
    case None => s
    case Some(t) =>
      WordAndSpacesTrimmed(s, t);
      TrimStart(s[|t|..])
  }

  /** Trimming the whitespace after a word at position 0 removes the word
      and that whitespace. */
  lemma WordAndSpacesTrimmed(s: string, t: string)
    requires PrefixThenSpace(s, t)
    ensures WordAndSpacesRemoved(s, t, TrimStart(s[|t|..]))
  {
    var x := s[|t|..];
    assert x[0] == s[|t|];
    RunRemoved(s, t, x, TrimStart(x));
  }

  /** Removing from the suffix `x` after `t` a non-empty whitespace run
      removes `t` and that run from `s`. */
  lemma RunRemoved(s: string, t: string, x: string, r: string)
    requires PrefixThenSpace(s, t) && x == s[|t|..]
    requires |r| < |x| && r == x[|x| - |r|..]
    requires forall i :: 0 <= i < |x| - |r| ==> IsSpace(x[i])
    requires r == [] || !IsSpace(r[0])
    ensures WordAndSpacesRemoved(s, t, r)
  {
    assert r == s[|s| - |r|..];
    assert forall i :: |t| <= i < |s| - |r| ==> s[i] == x[i - |t|];
  }


  /** Every whitespace character of `r` is a plain space. */
  predicate OnlyPlainSpaces(r: string) {
    forall i :: 0 <= i < |r| && IsSpace(r[i]) ==> r[i] == ' '
  }

  /** No two whitespace characters of `r` are adjacent. */
  predicate NoDoubleSpace(r: string) {
    forall i :: 0 <= i < |r| - 1 && IsSpace(r[i]) ==> !IsSpace(r[i + 1])
  }

  /** Every character of `r` is a plain space or a character of `s`. */
  predicate CharsFrom(r: string, s: string) {
    forall c :: c in r ==> c == ' ' || c in s
  }

  lemma SuffixChars(s: string, k: nat)
    requires k <= |s|
    ensures forall c :: c in s[k..] ==> c in s
  {
    forall c | c in s[k..] ensures c in s {
      var i :| 0 <= i < |s[k..]| && s[k..][i] == c;
      assert s[k + i] == c;
    }
  }

  /** Prepending one character keeps a string single-spaced when that
      character is a plain space or not whitespace, and whitespace is never
      put next to whitespace. */
  lemma ConsSingleSpaced(c: char, rest: string)
    requires OnlyPlainSpaces(rest) && NoDoubleSpace(rest)
    requires IsSpace(c) ==> c == ' ' && (rest == [] || !IsSpace(rest[0]))
    ensures OnlyPlainSpaces([c] + rest) && NoDoubleSpace([c] + rest)
  {
    var r := [c] + rest;
    forall i | 1 <= i < |r| ensures r[i] == rest[i - 1] {}
  }

  /** `re.sub(r'\s+', ' ', s)`: every maximal run of whitespace becomes one space. */
  function SingleSpaces(s: string): (r: string)
    ensures OnlyPlainSpaces(r) && NoDoubleSpace(r) && CharsFrom(r, s)
    ensures s != [] && !IsSpace(s[0]) ==> r != [] && r[0] == s[0]
    ensures s != [] && IsSpace(s[0]) ==> r != [] && r[0] == ' '
    decreases |s|
  {
    if s == [] then []
    else if IsSpace(s[0]) then
      var t := TrimStart(s);
      var rest := SingleSpaces(t);
      SuffixChars(s, |s| - |t|);
      ConsSingleSpaced(' ', rest);
      [' '] + rest
    else
      var rest := SingleSpaces(s[1..]);
      SuffixChars(s, 1);
      ConsSingleSpaced(s[0], rest);
      [s[0]] + rest
  }

  /** Drops the trailing whitespace (Python's `rstrip()`). */
  function TrimEnd(s: string): (r: string)
    ensures |r| <= |s| && r == s[..|r|]
    ensures r == [] || !IsSpace(r[|r| - 1])
    ensures forall i :: |r| <= i < |s| ==> IsSpace(s[i])
  {
    if s != [] && IsSpace(s[|s| - 1]) then TrimEnd(s[..|s| - 1]) else s
  }

  lemma SliceSingleSpaced(x: string, s: string, a: nat, b: nat)
    requires a <= b <= |x|
    requires OnlyPlainSpaces(x) && NoDoubleSpace(x) && CharsFrom(x, s)
    ensures OnlyPlainSpaces(x[a..b]) && NoDoubleSpace(x[a..b]) && CharsFrom(x[a..b], s)
  {
    SliceSingleSpacedAt(x, s, a, x[a..b]);
  }

  /** A slice `r` of single-spaced text, starting at `a`, is single-spaced. */
  lemma SliceSingleSpacedAt(x: string, s: string, a: nat, r: string)
    requires a + |r| <= |x| && r == x[a..a + |r|]
    requires OnlyPlainSpaces(x) && NoDoubleSpace(x) && CharsFrom(x, s)
    ensures OnlyPlainSpaces(r) && NoDoubleSpace(r) && CharsFrom(r, s)
  {
    forall i | 0 <= i < |r| ensures r[i] == x[a + i] {}
    forall c | c in r ensures c in x {
      var i :| 0 <= i < |r| && r[i] == c;
      assert x[a + i] == c;
    }
  }

  /** Step 5, `re.sub(r'\s+', ' ', s).strip()`: single plain spaces between
      the words, none at either end, and no character that was not in `s`
      apart from those spaces. */
  function CollapseSpaces(s: string): (r: string)
    ensures r == [] || (!IsSpace(r[0]) && !IsSpace(r[|r| - 1]))
    ensures OnlyPlainSpaces(r) && NoDoubleSpace(r) && CharsFrom(r, s)
  {
    var single := SingleSpaces(s);
    TrimmedSingleSpaced(single, s);
    TrimEnd(TrimStart(single))
  }

  /** Trimming both ends of single-spaced text keeps it single-spaced and
      leaves no whitespace at either end. */
  lemma TrimmedSingleSpaced(single: string, s: string)
    requires OnlyPlainSpaces(single) && NoDoubleSpace(single) && CharsFrom(single, s)
    ensures var r := TrimEnd(TrimStart(single));
      && (r == [] || (!IsSpace(r[0]) && !IsSpace(r[|r| - 1])))
      && OnlyPlainSpaces(r) && NoDoubleSpace(r) && CharsFrom(r, s)
  {
    var front := TrimStart(single);
    var r := TrimEnd(front);
    var a := |single| - |front|;
    PrefixOfSuffix(single, a, front, r);
    SliceSingleSpacedAt(single, s, a, r);
  }

  /** A prefix of a suffix is a slice. */
  lemma PrefixOfSuffix(x: string, a: nat, front: string, r: string)
    requires a <= |x| && front == x[a..] && |r| <= |front| && r == front[..|r|]
    ensures a + |r| <= |x| && r == x[a..a + |r|]
    ensures r != [] ==> r[0] == front[0]
  {
  }


  /** A word of `str.split()`: a non-empty run without whitespace. */
  predicate IsWord(w: string) {
    w != [] && forall i :: 0 <= i < |w| ==> !IsSpace(w[i])
  }

  /** The longest prefix of `s` that holds no whitespace. */
  function WordPrefix(s: string): (w: string)
    ensures |w| <= |s| && w == s[..|w|]
    ensures forall i :: 0 <= i < |w| ==> !IsSpace(s[i])
    ensures |w| == |s| || IsSpace(s[|w|])
  {
    if s == [] || IsSpace(s[0]) then [] else [s[0]] + WordPrefix(s[1..])
  }

  /** Python's `s.split()`: the maximal runs of `s` without whitespace, in
      order. */
  function Words(s: string): (ws: seq<string>)
    decreases |s|
  {
    var t := TrimStart(s);
    if t == [] then []
    else
      var w := WordPrefix(t);
      assert |w| > 0;
      [w] + Words(t[|w|..])
  }

  /** Python's `" ".join(ws)`. */
  function Unwords(ws: seq<string>): string {
    if ws == [] then []
    else if |ws| == 1 then ws[0]
    else ws[0] + " " + Unwords(ws[1..])
  }

  /** A word followed by whitespace, or by nothing, is the leading run. */
  lemma {:induction false} WordPrefixOf(w: string, x: string)
    requires IsWord(w) && (x == [] || IsSpace(x[0]))
    ensures WordPrefix(w + x) == w
  {
    assert (w + x)[0] == w[0] && (w + x)[1..] == w[1..] + x;
    if |w| == 1 {
      assert w[1..] + x == x;
    } else {
      WordPrefixOf(w[1..], x);
      assert w == [w[0]] + w[1..];
    }
  }

  /** Splitting a word followed by whitespace, or by nothing. */
  lemma WordsCons(w: string, x: string)
    requires IsWord(w) && (x == [] || IsSpace(x[0]))
    ensures Words(w + x) == [w] + Words(x)
  {
    assert (w + x)[0] == w[0];
    assert TrimStart(w + x) == w + x;
    WordPrefixOf(w, x);
    assert (w + x)[|w|..] == x;
  }

  /** A leading whitespace character does not change the words. */
  lemma WordsSkipSpace(s: string)
    requires s != [] && IsSpace(s[0])
    ensures Words(s) == Words(s[1..])
  {
    assert TrimStart(s) == TrimStart(s[1..]);
  }

  /** Leading whitespace does not change the words. */
  lemma WordsTrimStart(s: string)
    ensures Words(TrimStart(s)) == Words(s)
  {
    var t := TrimStart(s);
    assert TrimStart(t) == t;
  }

  /** `SingleSpaces` copies a leading word and goes on after it. */
  lemma {:induction false} SingleSpacesWord(t: string)
    requires t != [] && !IsSpace(t[0])
    ensures var w := WordPrefix(t); SingleSpaces(t) == w + SingleSpaces(t[|w|..])
  {
    var w, w' := WordPrefix(t), WordPrefix(t[1..]);
    var rest := SingleSpaces(t[|w|..]);
    SingleSpacesHead(t);
    WordPrefixHead(t);
    if w' != [] {
      SingleSpacesWord(t[1..]);
      SliceShift(t, |w|);
      assert SingleSpaces(t[1..]) == w' + rest;
      ConsConcat(t[0], w', rest);
    } else {
      assert t[1..] == t[|w|..];
    }
  }

  lemma WordPrefixHead(t: string)
    requires t != [] && !IsSpace(t[0])
    ensures WordPrefix(t) == [t[0]] + WordPrefix(t[1..])
  {
  }

  lemma ConsConcat(c: char, a: string, b: string)
    ensures [c] + (a + b) == ([c] + a) + b
  {
  }

  lemma SingleSpacesHead(t: string)
    requires t != [] && !IsSpace(t[0])
    ensures SingleSpaces(t) == [t[0]] + SingleSpaces(t[1..])
  {
  }

  lemma SliceShift(t: string, n: nat)
    requires 1 <= n <= |t|
    ensures t[1..][n - 1..] == t[n..]
  {
  }

  /** Replacing whitespace runs by one space keeps the words. */
  lemma {:induction false} SingleSpacesWords(s: string)
    ensures Words(SingleSpaces(s)) == Words(s)
    decreases |s|
  {
    if s == [] {
    } else if IsSpace(s[0]) {
      var v := TrimStart(s);
      assert SingleSpaces(s) == [' '] + SingleSpaces(v);
      WordsSkipSpace([' '] + SingleSpaces(v));
      assert ([' '] + SingleSpaces(v))[1..] == SingleSpaces(v);
      SingleSpacesWords(v);
      WordsTrimStart(s);
    } else {
      var w := WordPrefix(s);
      var u := s[|w|..];
      SingleSpacesWord(s);
      assert s == w + u;
      WordsCons(w, u);
      SingleSpacesWords(u);
      WordsCons(w, SingleSpaces(u));
    }
  }

  /** Trailing whitespace does not change the words. */
  lemma {:induction false} WordsSnocSpace(z: string, c: char)
    requires IsSpace(c)
    ensures Words(z + [c]) == Words(z)
    decreases |z|
  {
    if z == [] {
      WordsOfSpace(z, c);
    } else if IsSpace(z[0]) {
      SnocLeadingSpace(z, c);
      WordsSnocSpace(z[1..], c);
    } else {
      var u := SnocAfterWord(z, c);
      WordsSnocSpace(u, c);
    }
  }

  lemma WordsOfSpace(z: string, c: char)
    requires z == [] && IsSpace(c)
    ensures Words(z + [c]) == Words(z)
  {
    assert z + [c] == [c];
    WordsSkipSpace([c]);
    assert [c][1..] == [];
  }

  lemma SnocLeadingSpace(z: string, c: char)
    requires z != [] && IsSpace(z[0]) && IsSpace(c)
    ensures Words(z + [c]) == Words(z[1..] + [c]) && Words(z) == Words(z[1..])
  {
    SnocTail(z, c);
    WordsSkipSpace(z + [c]);
    WordsSkipSpace(z);
  }

  lemma SnocTail(z: string, c: char)
    requires z != []
    ensures (z + [c])[0] == z[0] && (z + [c])[1..] == z[1..] + [c]
  {
  }

  /** After the leading word of `z`, the rest `u` is split the same way with
      or without a trailing whitespace character. */
  lemma SnocAfterWord(z: string, c: char) returns (u: string)
    requires z != [] && !IsSpace(z[0]) && IsSpace(c)
    ensures |u| < |z|
    ensures Words(z) == [WordPrefix(z)] + Words(u)
    ensures Words(z + [c]) == [WordPrefix(z)] + Words(u + [c])
  {
    var w := WordPrefix(z);
    u := z[|w|..];
    WordStart(z);
    assert z == w + u && z + [c] == w + (u + [c]);
    WordsCons(w, u);
    WordsCons(w, u + [c]);
  }

  /** Text that starts without whitespace starts with a word. */
  lemma WordStart(z: string)
    requires z != [] && !IsSpace(z[0])
    ensures IsWord(WordPrefix(z))
    ensures var u := z[|WordPrefix(z)|..]; u == [] || IsSpace(u[0])
  {
    assert WordPrefix(z) == [z[0]] + WordPrefix(z[1..]);
  }

  /** Trailing whitespace does not change the words. */
  lemma {:induction false} WordsTrimEnd(s: string)
    ensures Words(TrimEnd(s)) == Words(s)
    decreases |s|
  {
    if s != [] && IsSpace(s[|s| - 1]) {
      var p, c := LastSplit(s);
      WordsTrimEnd(p);
      WordsSnocSpace(p, c);
    }
  }

  /** Text that ends in whitespace is the text before it plus that character. */
  lemma LastSplit(s: string) returns (p: string, c: char)
    requires s != [] && IsSpace(s[|s| - 1])
    ensures s == p + [c] && IsSpace(c) && p == s[..|s| - 1]
    ensures TrimEnd(s) == TrimEnd(p)
  {
    p, c := s[..|s| - 1], s[|s| - 1];
  }

  /** Text with plain single spaces and no whitespace at either end. */
  predicate Collapsed(x: string) {
    && OnlyPlainSpaces(x) && NoDoubleSpace(x)
    && (x == [] || (!IsSpace(x[0]) && !IsSpace(x[|x| - 1])))
  }

  /** Collapsed text is its words joined by single spaces. */
  lemma {:induction false} SingleSpacedJoin(x: string)
    requires Collapsed(x)
    ensures Unwords(Words(x)) == x
    decreases |x|
  {
    if x != [] {
      var w := WordPrefix(x);
      if |w| == |x| {
        LastWord(x);
      } else {
        var v := NextWord(x);
        SingleSpacedJoin(v);
        UnwordsCons(w, Words(v));
      }
    }
  }

  /** Collapsed text without a space is one word. */
  lemma LastWord(x: string)
    requires Collapsed(x) && x != [] && |WordPrefix(x)| == |x|
    ensures Unwords(Words(x)) == x
  {
    WordStart(x);
    assert WordPrefix(x) == x;
    WordAlone(x);
  }

  /** Collapsed text with a space is its first word, one space and the
      collapsed rest `v`. */
  lemma NextWord(x: string) returns (v: string)
    requires Collapsed(x) && x != [] && |WordPrefix(x)| < |x|
    ensures Collapsed(v) && v != [] && |v| < |x|
    ensures x == WordPrefix(x) + " " + v
    ensures Words(x) == [WordPrefix(x)] + Words(v) && Words(v) != []
  {
    v := CollapsedRest(x);
    WordStart(x);
    WordsAfter(WordPrefix(x), v);
  }

  /** The character after the first word of collapsed text is a plain space
      followed by more collapsed text. */
  lemma CollapsedRest(x: string) returns (v: string)
    requires Collapsed(x) && x != [] && |WordPrefix(x)| < |x|
    ensures Collapsed(v) && v != [] && |v| < |x|
    ensures x == WordPrefix(x) + " " + v
  {
    var w := WordPrefix(x);
    var n := |w|;
    assert IsSpace(x[n]) && x[n] == ' ';
    assert n + 1 < |x| && !IsSpace(x[n + 1]);
    v := x[n + 1..];
    SliceSingleSpaced(x, x, n + 1, |x|);
    assert v[0] == x[n + 1] && v[|v| - 1] == x[|x| - 1];
    assert x == x[..n] + [x[n]] + x[n + 1..];
  }

  /** A word, one space and text that starts with a word. */
  lemma WordsAfter(w: string, v: string)
    requires IsWord(w) && v != [] && !IsSpace(v[0])
    ensures Words(w + " " + v) == [w] + Words(v) && Words(v) != []
  {
    assert w + " " + v == w + (" " + v);
    WordsCons(w, " " + v);
    WordsSkipSpace(" " + v);
    assert (" " + v)[1..] == v;
    assert TrimStart(v) == v;
  }

  /** Joining a word in front of non-empty words puts one space between. */
  lemma UnwordsCons(w: string, ws: seq<string>)
    requires ws != []
    ensures Unwords([w] + ws) == w + " " + Unwords(ws)
  {
    assert ([w] + ws)[1..] == ws;
  }

  /** Step 5 is `" ".join(s.split())`: the words of the text, joined by
      single spaces; so it keeps the words, in order. */
  lemma CollapseIsJoinedWords(s: string)
    ensures CollapseSpaces(s) == Unwords(Words(s))
    ensures Words(CollapseSpaces(s)) == Words(s)
  {
    var single := SingleSpaces(s);
    var x := CollapseSpaces(s);
    assert x == TrimEnd(TrimStart(single));
    WordsTrimEnd(TrimStart(single));
    WordsTrimStart(single);
    SingleSpacesWords(s);
    assert Collapsed(x);
    SingleSpacedJoin(x);
  }

  /** Every element of `ws` is a word. */
  predicate AllWords(ws: seq<string>) {
    forall i :: 0 <= i < |ws| ==> IsWord(ws[i])
  }

  /** Splitting the words joined by single spaces gives the words back. */
  lemma {:induction false} SplitJoin(ws: seq<string>)
    requires AllWords(ws)
    ensures Words(Unwords(ws)) == ws
  {
    if |ws| == 1 {
      SingleWord(ws);
    } else if |ws| > 1 {
      AllWordsTail(ws);
      SplitJoin(ws[1..]);
      JoinStep(ws);
    } else {
      assert Unwords(ws) == [];
    }
  }

  lemma SingleWord(ws: seq<string>)
    requires |ws| == 1 && AllWords(ws)
    ensures Words(Unwords(ws)) == ws
  {
    assert IsWord(ws[0]);
    WordAlone(ws[0]);
    assert ws == [ws[0]];
  }

  /** A word on its own splits into itself. */
  lemma WordAlone(w: string)
    requires IsWord(w)
    ensures Words(w) == [w]
  {
    assert w + [] == w;
    WordPrefixOf(w, []);
    assert TrimStart(w) == w;
    assert w[|w|..] == [];
  }

  lemma AllWordsTail(ws: seq<string>)
    requires ws != [] && AllWords(ws)
    ensures AllWords(ws[1..])
  {
    forall i | 0 <= i < |ws| - 1 ensures IsWord(ws[1..][i]) {
      assert ws[1..][i] == ws[i + 1];
    }
  }

  lemma JoinStep(ws: seq<string>)
    requires |ws| > 1 && AllWords(ws)
    requires Words(Unwords(ws[1..])) == ws[1..]
    ensures Words(Unwords(ws)) == ws
  {
    assert ws == [ws[0]] + ws[1..];
    assert IsWord(ws[0]);
    WordSpaceRest(ws[0], Unwords(ws[1..]));
  }

  /** A word, a space and more text split into the word and the words of
      the rest. */
  lemma WordSpaceRest(w: string, rest: string)
    requires IsWord(w)
    ensures Words(w + " " + rest) == [w] + Words(rest)
  {
    assert w + " " + rest == w + (" " + rest);
    WordsCons(w, " " + rest);
    WordsSkipSpace(" " + rest);
    assert (" " + rest)[1..] == rest;
  }

  /** The characters of a key as it comes out of the normaliser: lower-case
      ASCII letters, digits, `_` and the space, and the capitals `C`, `P`,
      `S` and `Y` that the capital symbols leave behind. */
  predicate IsKeyChar(c: char) {
    IsLowerKeyChar(c) || IsSymbolCapital(c)
  }

  predicate IsLowerKeyChar(c: char) {
    ('a' <= c <= 'z') || IsDigit(c) || c == '_' || c == ' '
  }

  /** No space at either end and no two spaces in a row. */
  predicate SingleSpaced(k: string) {
    && (k == [] || (k[0] != ' ' && k[|k| - 1] != ' '))
    && (forall i :: 0 <= i < |k| - 1 && k[i] == ' ' ==> k[i + 1] != ' ')
  }

  /** A street key: key characters with single inner spaces. */
  predicate IsStreetKey(k: string) {
    (forall i :: 0 <= i < |k| ==> IsKeyChar(k[i])) && SingleSpaced(k)
  }

  /** A street key without capitals, the form of every name that holds no
      capital symbol. */
  predicate IsLowerKey(k: string) {
    (forall i :: 0 <= i < |k| ==> IsLowerKeyChar(k[i])) && SingleSpaced(k)
  }

  /** Collapsing text of ASCII word characters and whitespace, with no
      capitals other than `C`, `P`, `S` and `Y`, yields a street key; with no
      capitals at all, a lower-case one. */
  lemma CollapsedIsKey(s: string)
    requires forall c :: c in s ==> IsAscii(c) && IsKept(c) && (IsAsciiUpper(c) ==> IsSymbolCapital(c))
    ensures IsStreetKey(CollapseSpaces(s))
    ensures (forall c :: c in s ==> !IsAsciiUpper(c)) ==> IsLowerKey(CollapseSpaces(s))
  {
    var k := CollapseSpaces(s);
    forall i | 0 <= i < |k|
      ensures IsKeyChar(k[i])
      ensures (forall c :: c in s ==> !IsAsciiUpper(c)) ==> IsLowerKeyChar(k[i])
    {
      var c := k[i];
      if IsSpace(c) {
        assert c == ' ';
      } else {
        assert c in k;
        assert c in s;
        KeptAsciiIsKeyChar(c);
      }
    }
    forall i | 0 <= i < |k| - 1 && k[i] == ' ' ensures k[i + 1] != ' ' {
      assert IsSpace(k[i]);
    }
  }

  lemma KeptAsciiIsKeyChar(c: char)
    requires IsAscii(c) && IsKept(c) && !IsSpace(c) && (IsAsciiUpper(c) ==> IsSymbolCapital(c))
    ensures IsKeyChar(c)
    ensures !IsAsciiUpper(c) ==> IsLowerKeyChar(c)
  {
  }

  /** The name holds none of the capital symbols. */
  predicate NoCapitalSymbol(raw: string) {
    forall j :: 0 <= j < |raw| ==> !IsCapitalSymbol(raw[j])
  }

  /** The characters of `Transliterate(LowerStr(raw))` are ASCII, and the
      only capitals among them come from the capital symbols. */
  lemma LoweredAsciiChars(raw: string)
    ensures forall c :: c in Transliterate(LowerStr(raw)) ==>
      IsAscii(c) && (IsAsciiUpper(c) ==> IsSymbolCapital(c))
    ensures NoCapitalSymbol(raw) ==> forall c :: c in Transliterate(LowerStr(raw)) ==> !IsAsciiUpper(c)
  {
    var t := Transliterate(LowerStr(raw));
    TransliterateLowerCapitals(raw);
    forall c | c in t
      ensures IsAscii(c) && (IsAsciiUpper(c) ==> IsSymbolCapital(c))
      ensures NoCapitalSymbol(raw) ==> !IsAsciiUpper(c)
    {
      var i :| 0 <= i < |t| && t[i] == c;
      assert CapitalsFromSymbols(t);
      assert NoCapitalSymbol(raw) ==> NoCapitals(t);
    }
  }

  /** Steps 1 to 3 of `normalize_street`: lower case, transliteration and
      punctuation removal. */
  function Cleaned(raw: string): string {
    RemovePunctuation(Transliterate(LowerStr(raw)))
  }

  /** `normalize_street`: the five steps in the source's order. The result is
      a street key whatever the input, and a lower-case one when the name
      holds no capital symbol. */
  function Normalize(raw: string): (key: string)
    ensures IsStreetKey(key)
    ensures NoCapitalSymbol(raw) ==> IsLowerKey(key)
  {
    var clean := Cleaned(raw);
    var stripped := StripStreetPrefix(clean);
    LoweredAsciiChars(raw);
    assert forall c :: c in clean ==> IsAscii(c) && IsKept(c) && (IsAsciiUpper(c) ==> IsSymbolCapital(c));
    assert NoCapitalSymbol(raw) ==> forall c :: c in clean ==> !IsAsciiUpper(c);
    SuffixChars(clean, |clean| - |stripped|);
    assert stripped == clean[|clean| - |stripped|..];
    CollapsedIsKey(stripped);
    CollapseSpaces(stripped)
  }

  /** Collapsing leaves single-spaced text with plain spaces as it is. */
  lemma {:induction false} SingleSpacesFixed(x: string)
    requires OnlyPlainSpaces(x) && NoDoubleSpace(x)
    ensures SingleSpaces(x) == x
    decreases |x|
  {
    if x != [] {
      SliceSingleSpaced(x, x, 1, |x|);
      if IsSpace(x[0]) {
        assert x[1..] == [] || !IsSpace(x[1..][0]);
        assert TrimStart(x) == TrimStart(x[1..]) == x[1..];
      }
      SingleSpacesFixed(x[1..]);
      assert x == [x[0]] + x[1..];
    }
  }

  /** A street key is its own collapsed form. */
  lemma CollapseKeyFixed(k: string)
    requires IsStreetKey(k)
    ensures CollapseSpaces(k) == k
  {
    forall i | 0 <= i < |k| && IsSpace(k[i]) ensures k[i] == ' ' {
      assert IsKeyChar(k[i]);
    }
    SingleSpacesFixed(k);
  }

  /** The first three steps leave a street key as it is. */
  lemma CleanStepsFixKey(k: string)
    requires IsLowerKey(k)
    ensures RemovePunctuation(Transliterate(LowerStr(k))) == k
  {
    assert forall i :: 0 <= i < |k| ==> IsLowerKeyChar(k[i]);
    LowerStrFixed(k);
    TransliterateAscii(k);
    RemovePunctuationKeepsClean(k);
  }

  /** What is left of a street key after its first word and the space
      behind it is again a street key. */
  lemma KeyTailIsKey(k: string, n: nat)
    requires IsLowerKey(k) && n < |k| && k[n] == ' '
    ensures IsLowerKey(k[n + 1..])
  {
    var r := k[n + 1..];
    assert forall i :: 0 <= i < |r| ==> r[i] == k[n + 1 + i];
  }

  /** On a street key, step 4 removes a leading street-type word and the
      single space after it, and nothing otherwise. */
  lemma StripKeyPrefix(k: string)
    requires IsStreetKey(k)
    ensures (forall t :: t in StreetTypes ==> !(t + " " <= k)) ==> StripStreetPrefix(k) == k
    ensures forall t :: t in StreetTypes && t + " " <= k ==> StripStreetPrefix(k) == k[|t| + 1..]
  {
    match FirstAlternative(k, PrefixAlternatives)
    case None =>
      forall t | t in StreetTypes
        ensures !(t + " " <= k)
      {
        assert t in PrefixAlternatives;
      }
    case Some(t) =>
      StripKeyMatched(k, t);
      forall t' | t' in StreetTypes && t' + " " <= k ensures t' == t {
        StreetTypeUnique(k, t, t');
      }
  }

  lemma StripKeyMatched(k: string, t: string)
    requires IsStreetKey(k) && FirstAlternative(k, PrefixAlternatives) == Some(t)
    ensures t in StreetTypes && t + " " <= k && StripStreetPrefix(k) == k[|t| + 1..]
  {
    KeyAlternativeIsType(k, t);
    StripUnfold(k, t);
    StripOneSpace(k, t, StripStreetPrefix(k));
  }

  /** In a key, the word the prefix pattern matches is a street type
      followed by exactly one space and then a word character. */
  lemma KeyAlternativeIsType(k: string, t: string)
    requires IsStreetKey(k) && t in PrefixAlternatives && PrefixThenSpace(k, t)
    ensures t in StreetTypes
    ensures |t| + 1 < |k| && k[|t|] == ' ' && !IsSpace(k[|t| + 1])
  {
    var n := |t|;
    assert k[..n] == t;
    assert t != "avda." by {
      assert |t| == 5 ==> t[4] == k[4];
      assert IsKeyChar(k[4]);
    }
    assert IsKeyChar(k[n]);
    assert n + 1 < |k|;
    assert IsKeyChar(k[n + 1]);
  }

  lemma StripOneSpace(k: string, t: string, stripped: string)
    requires PrefixThenSpace(k, t) && stripped == TrimStart(k[|t|..])
    requires |t| + 1 < |k| && k[|t|] == ' ' && !IsSpace(k[|t| + 1])
    ensures t + " " <= k && stripped == k[|t| + 1..]
  {
    TrimStartAfterWord(k, |t|);
    WordThenSpace(k, t);
  }

  lemma WordThenSpace(k: string, t: string)
    requires |t| < |k| && k[..|t|] == t && k[|t|] == ' '
    ensures t + " " <= k
  {
    assert k[..|t| + 1] == k[..|t|] + [k[|t|]];
  }

  lemma StripUnfold(k: string, t: string)
    requires FirstAlternative(k, PrefixAlternatives) == Some(t)
    ensures StripStreetPrefix(k) == TrimStart(k[|t|..])
  {
  }

  lemma TrimStartAfterWord(k: string, n: nat)
    requires n + 1 < |k| && k[n] == ' ' && !IsSpace(k[n + 1])
    ensures TrimStart(k[n..]) == k[n + 1..]
  {
    var rest := k[n..];
    assert rest[0] == ' ' && rest[1..] == k[n + 1..];
    TrimStartSkipsSpace(rest);
  }

  lemma TrimStartSkipsSpace(x: string)
    requires |x| >= 2 && IsSpace(x[0]) && !IsSpace(x[1])
    ensures TrimStart(x) == x[1..]
  {
    assert TrimStart(x) == TrimStart(x[1..]);
  }

  /** At most one street-type word can stand, with a space, at the start of a
      string, because none of them contains a space. */
  lemma StreetTypeUnique(k: string, t: string, t': string)
    requires t in StreetTypes && t' in StreetTypes && t + " " <= k && t' + " " <= k
    ensures t == t'
  {
    assert k[..|t|] == t && k[|t|] == ' ';
    assert k[..|t'|] == t' && k[|t'|] == ' ';
  }

  /** Normalising a key again is the identity unless the key begins with a
      street-type word and a space; then exactly that word and space go. So
      normalisation is not idempotent in general. */
  lemma NormalizeKeyAgain(k: string)
    requires IsLowerKey(k)
    ensures (forall t :: t in StreetTypes ==> !(t + " " <= k)) ==> Normalize(k) == k
    ensures forall t :: t in StreetTypes && t + " " <= k ==> Normalize(k) == k[|t| + 1..]
  {
    CleanStepsFixKey(k);
    StripKeyPrefix(k);
    if forall t :: t in StreetTypes ==> !(t + " " <= k) {
      CollapseKeyFixed(k);
    } else {
      var t :| t in StreetTypes && t + " " <= k;
      NormalizeKeyTail(k, t);
    }
  }

  /** A second pass over any street key first lower-cases the capitals `C`,
      `P`, `S` and `Y`: the result is that of the lower-case key, to which
      `NormalizeKeyAgain` applies. So a key with those capitals is changed. */
  lemma NormalizeKeyLowered(k: string)
    requires IsStreetKey(k)
    ensures IsLowerKey(LowerStr(k))
    ensures Normalize(k) == Normalize(LowerStr(k))
    ensures IsLowerKey(Normalize(k))
    ensures !IsLowerKey(k) ==> Normalize(k) != k
  {
    var l := LowerStr(k);
    LoweredKey(k, l);
    LowerStrTwice(k);
    NormalizeIgnoresCase(k, l);
  }

  /** Lower-casing a street key gives a lower-case key, which holds none of
      the capital symbols. */
  lemma LoweredKey(k: string, l: string)
    requires IsStreetKey(k) && l == LowerStr(k)
    ensures IsLowerKey(l) && NoCapitalSymbol(l)
  {
    assert |l| == |k|;
    forall i | 0 <= i < |l|
      ensures IsLowerKeyChar(l[i]) && !IsCapitalSymbol(l[i]) && (l[i] == ' ' <==> k[i] == ' ')
    {
      assert IsKeyChar(k[i]) && l[i] == LowerChar(k[i]);
    }
    assert SingleSpaced(l) by {
      assert l == [] || (l[0] != ' ' && l[|l| - 1] != ' ');
      forall i | 0 <= i < |l| - 1 && l[i] == ' ' ensures l[i + 1] != ' ' {
        assert k[i] == ' ' && k[i + 1] != ' ';
      }
    }
  }

  /** The branch of `NormalizeKeyAgain` where `k` starts with a street type
      and a space. */
  lemma NormalizeKeyTail(k: string, t: string)
    requires IsLowerKey(k) && t in StreetTypes && t + " " <= k
    requires Cleaned(k) == k && StripStreetPrefix(k) == k[|t| + 1..]
    ensures forall t' :: t' in StreetTypes && t' + " " <= k ==> Normalize(k) == k[|t'| + 1..]
  {
    assert k[|t|] == (t + " ")[|t|] == ' ';
    KeyTailIsKey(k, |t|);
    CollapseKeyFixed(k[|t| + 1..]);
    forall t' | t' in StreetTypes && t' + " " <= k ensures t' == t {
      StreetTypeUnique(k, t, t');
    }
  }

  /** The alternatives exclude one another: at most one is followed by
      whitespace at position 0. */
  lemma AlternativeUnique(s: string, t: string, t': string)
    requires t in PrefixAlternatives && t' in PrefixAlternatives
    requires PrefixThenSpace(s, t) && PrefixThenSpace(s, t')
    ensures t == t'
  {
    assert s[..|t|] == t && IsSpace(s[|t|]);
    assert s[..|t'|] == t' && IsSpace(s[|t'|]);
  }

  /** Step 4 on a string that begins with the alternative `t` and whitespace. */
  lemma StripMatching(s: string, t: string)
    requires t in PrefixAlternatives && PrefixThenSpace(s, t)
    ensures StripStreetPrefix(s) == TrimStart(s[|t|..])
  {
    var t' := FirstAlternative(s, PrefixAlternatives).value;
    AlternativeUnique(s, t, t');
    StripUnfold(s, t');
  }

  /** The key's words: the words of the cleaned name, less the street type
      when the name begins with one followed by whitespace. A street type
      stripped this way is never "avda.", since the cleaned name holds no
      full stop. */
  lemma NormalizeWords(raw: string)
    ensures var clean := Cleaned(raw);
      (forall t :: t in PrefixAlternatives ==> !PrefixThenSpace(clean, t)) ==>
        Words(Normalize(raw)) == Words(clean)
    ensures var clean := Cleaned(raw);
      forall t :: t in PrefixAlternatives && PrefixThenSpace(clean, t) ==>
        t in StreetTypes && Words(clean) == [t] + Words(Normalize(raw))
  {
    var clean := Cleaned(raw);
    var stripped := StripStreetPrefix(clean);
    assert Normalize(raw) == CollapseSpaces(stripped);
    CollapseIsJoinedWords(stripped);
    assert forall c :: c in clean ==> IsKept(c);
    forall t | t in PrefixAlternatives && PrefixThenSpace(clean, t)
      ensures t in StreetTypes && Words(clean) == [t] + Words(stripped)
    {
      StripMatching(clean, t);
      PrefixIsStreetType(clean, t);
      AlternativeIsWord(t);
      PrefixWords(clean, t);
    }
  }

  /** Text without full stops never begins with the alternative "avda.". */
  lemma PrefixIsStreetType(s: string, t: string)
    requires t in PrefixAlternatives && PrefixThenSpace(s, t)
    requires forall c :: c in s ==> IsKept(c)
    ensures t in StreetTypes
  {
    if t == "avda." {
      StopAfterAvda(s);
    }
  }

  lemma StopAfterAvda(s: string)
    requires PrefixThenSpace(s, "avda.")
    ensures '.' in s
  {
    assert s[4] == s[..5][4];
  }

  lemma AlternativeIsWord(t: string)
    requires t in PrefixAlternatives
    ensures IsWord(t)
  {
    forall i | 0 <= i < |t| ensures !IsSpace(t[i]) {
      assert t[i] in "calleavd.nirzp";
    }
  }

  /** A word with whitespace after it is the first word, and the words after
      it are those of the text once that whitespace is trimmed. */
  lemma PrefixWords(s: string, t: string)
    requires IsWord(t) && PrefixThenSpace(s, t)
    ensures Words(s) == [t] + Words(TrimStart(s[|t|..]))
  {
    var x := s[|t|..];
    WordsTrimStart(x);
    assert s == t + x;
    WordsCons(t, x);
  }

  /** A name whose cleaned and prefix-stripped text is already a street key
      normalises to that text: collapsing has nothing left to do. */
  lemma NormalizeByStages(raw: string, clean: string, stripped: string)
    requires Cleaned(raw) == clean && StripStreetPrefix(clean) == stripped
    requires IsStreetKey(stripped)
    ensures Normalize(raw) == stripped
  {
    CollapseKeyFixed(stripped);
  }

  /** The documented example: the abbreviation with its period and the case
      both disappear. */
  lemma ExampleAvdaIndependencia(raw: string, key: string)
    requires raw == "Avda. Independencia" && key == "independencia"
    ensures Normalize(raw) == key
  {
    var lowered, clean, rest := "avda. independencia", "avda independencia", " independencia";
    ExampleLowered(raw, lowered);
    ExampleCleaned(lowered, rest, clean);
    ExampleStripped(clean, rest, key);
    TransliterateAscii(lowered);
    NormalizeByStages(raw, clean, key);
  }

  lemma ExampleLowered(raw: string, lowered: string)
    requires raw == "Avda. Independencia" && lowered == "avda. independencia"
    ensures LowerStr(raw) == lowered && forall i :: 0 <= i < |lowered| ==> IsAscii(lowered[i])
  {
  }

  lemma ExampleCleaned(lowered: string, rest: string, clean: string)
    requires lowered == "avda. independencia" && rest == " independencia" && clean == "avda independencia"
    ensures RemovePunctuation(lowered) == clean
  {
    ExampleAbbreviationCleaned();
    ExampleRestCleaned(rest);
    ExampleSplit(lowered, rest, clean);
    RemovePunctuationAppend("avda.", rest);
  }

  lemma ExampleAbbreviationCleaned()
    ensures RemovePunctuation("avda.") == "avda"
  {
    AbbreviationCleaned("avda.", "avda");
  }

  /** The period of the abbreviation is dropped. */
  lemma AbbreviationCleaned(abbreviation: string, word: string)
    requires abbreviation == "avda." && word == "avda"
    ensures RemovePunctuation(abbreviation) == word
  {
    assert abbreviation == word + ['.'];
    assert forall i :: 0 <= i < |word| ==> IsKept(word[i]);
    DropTrailingMark(word, '.');
  }

  /** A word followed by one punctuation mark loses just the mark. */
  lemma DropTrailingMark(word: string, mark: char)
    requires forall i :: 0 <= i < |word| ==> IsKept(word[i])
    requires !IsKept(mark)
    ensures RemovePunctuation(word + [mark]) == word
  {
    RemovePunctuationAppend(word, [mark]);
    RemovePunctuationKeepsClean(word);
    assert [mark][1..] == [];
  }

  lemma ExampleRestCleaned(rest: string)
    requires rest == " independencia"
    ensures RemovePunctuation(rest) == rest
  {
    assert forall i :: 0 <= i < |rest| ==> IsKept(rest[i]);
    RemovePunctuationKeepsClean(rest);
  }

  lemma ExampleSplit(lowered: string, rest: string, clean: string)
    requires lowered == "avda. independencia" && rest == " independencia" && clean == "avda independencia"
    ensures lowered == "avda." + rest && clean == "avda" + rest
  {
  }

  lemma ExampleStripped(clean: string, rest: string, key: string)
    requires clean == "avda independencia" && rest == " independencia" && key == "independencia"
    ensures StripStreetPrefix(clean) == key && IsLowerKey(key)
  {
    ExampleStripMatches(clean, rest, key);
    ExampleKeyShape(key);
  }

  lemma ExampleStripMatches(clean: string, rest: string, key: string)
    requires clean == "avda independencia" && rest == " independencia" && key == "independencia"
    ensures StripStreetPrefix(clean) == key
  {
    var t := "avda";
    ExampleAvdaPrefix(clean, t);
    StripMatching(clean, t);
    ExampleAvdaRest(clean, t, rest, key);
  }

  lemma ExampleAvdaPrefix(clean: string, t: string)
    requires clean == "avda independencia" && t == "avda"
    ensures t in PrefixAlternatives && PrefixThenSpace(clean, t)
  {
  }

  lemma ExampleAvdaRest(clean: string, t: string, rest: string, key: string)
    requires clean == "avda independencia" && t == "avda" && rest == " independencia" && key == "independencia"
    ensures TrimStart(clean[|t|..]) == key
  {
    assert clean[|t|..] == rest;
    TrimStartSkipsSpace(rest);
    assert rest[1..] == key;
  }

  lemma ExampleKeyShape(key: string)
    requires key == "independencia"
    ensures IsLowerKey(key)
  {
  }

  /** Lower-casing is idempotent over the modelled characters. */
  lemma LowerStrTwice(s: string)
    ensures LowerStr(LowerStr(s)) == LowerStr(s)
  {
    forall i | 0 <= i < |s| ensures LowerChar(LowerChar(s[i])) == LowerChar(s[i]) {
      var c := s[i];
      if '\U{C0}' <= c <= '\U{DE}' && c != '\U{D7}' {
        assert LowerChar(c) == (c as int + 32) as char;
      }
    }
  }

  /** Two inputs that differ only in letter case get the same key. */
  lemma NormalizeIgnoresCase(a: string, b: string)
    requires LowerStr(a) == LowerStr(b)
    ensures Normalize(a) == Normalize(b)
  {
  }

  /** The key does not depend on letter case: `AVDA INDEPENDENCIA` gives the
      same key as the documented example. */
  lemma ExampleUpperCase()
    ensures Normalize("AVDA INDEPENDENCIA") == "independencia"
  {
    ExampleUpperSteps("AVDA INDEPENDENCIA", "avda independencia", "independencia");
  }

  lemma ExampleUpperSteps(raw: string, lowered: string, key: string)
    requires raw == "AVDA INDEPENDENCIA" && lowered == "avda independencia" && key == "independencia"
    ensures Normalize(raw) == key
  {
    ExampleUpperLowered(raw, lowered, key);
    LoweredKeyStripped(raw, lowered, "avda", key);
  }

  lemma ExampleUpperLowered(raw: string, lowered: string, key: string)
    requires raw == "AVDA INDEPENDENCIA" && lowered == "avda independencia" && key == "independencia"
    ensures LowerStr(raw) == lowered && IsLowerKey(lowered)
    ensures "avda" + " " <= lowered && key == lowered[5..]
  {
    ExampleUpperLowerCase(raw, lowered);
    ExampleUpperKey(lowered);
    ExampleUpperRest(lowered, key);
  }

  lemma ExampleUpperLowerCase(raw: string, lowered: string)
    requires raw == "AVDA INDEPENDENCIA" && lowered == "avda independencia"
    ensures LowerStr(raw) == lowered
  {
  }

  lemma ExampleUpperKey(lowered: string)
    requires lowered == "avda independencia"
    ensures IsLowerKey(lowered)
  {
  }

  lemma ExampleUpperRest(lowered: string, key: string)
    requires lowered == "avda independencia" && key == "independencia"
    ensures "avda" + " " <= lowered && key == lowered[5..]
  {
  }

  /** An input whose lower case is a key starting with street type `t` and a
      space normalises to the rest of that key. */
  lemma LoweredKeyStripped(raw: string, lowered: string, t: string, key: string)
    requires LowerStr(raw) == lowered && IsLowerKey(lowered)
    requires t in StreetTypes && t + " " <= lowered && key == lowered[|t| + 1..]
    ensures Normalize(raw) == key
  {
    LowerStrTwice(raw);
    NormalizeIgnoresCase(raw, lowered);
    ExampleKeyStripped(lowered, t, key);
  }

  /** A key that starts with street type `t` and a space normalises to the
      rest of the key. */
  lemma ExampleKeyStripped(k: string, t: string, rest: string)
    requires IsLowerKey(k) && t in StreetTypes && t + " " <= k && rest == k[|t| + 1..]
    ensures Normalize(k) == rest
  {
    NormalizeKeyAgain(k);
  }

  /** A key that does not start with a street type and a space is a fixed
      point of the normaliser. */
  lemma ExampleKeyKept(k: string)
    requires IsLowerKey(k) && forall t :: t in StreetTypes ==> !(t + " " <= k)
    ensures Normalize(k) == k
  {
    NormalizeKeyAgain(k);
  }

  /** A street-type word is stripped only when whitespace follows it, and only
      once: `calle` alone and `callejon x` keep their first word,
      `calle calle mayor` loses only the first `calle`, and normalising the
      result again strips the second: normalisation is not idempotent. */
  lemma ExamplePrefixOnlyOnce()
    ensures Normalize("calle") == "calle"
    ensures Normalize("callejon x") == "callejon x"
    ensures Normalize("calle calle mayor") == "calle mayor"
    ensures Normalize(Normalize("calle calle mayor")) == "mayor"
  {
    ExampleCalleAlone("calle");
    ExampleCallejon("callejon x");
    ExampleCalleTwice("calle calle mayor", "calle mayor", "mayor");
  }

  lemma ExampleCalleAlone(k: string)
    requires k == "calle"
    ensures Normalize(k) == k
  {
    ExampleCalleAloneShape(k);
    ExampleKeyKept(k);
  }

  lemma ExampleCalleAloneShape(k: string)
    requires k == "calle"
    ensures IsLowerKey(k) && forall t :: t in StreetTypes ==> !(t + " " <= k)
  {
  }

  lemma ExampleCallejon(k: string)
    requires k == "callejon x"
    ensures Normalize(k) == k
  {
    ExampleCallejonShape(k);
    ExampleKeyKept(k);
  }

  lemma ExampleCallejonShape(k: string)
    requires k == "callejon x"
    ensures IsLowerKey(k) && forall t :: t in StreetTypes ==> !(t + " " <= k)
  {
    forall t | t in StreetTypes
      ensures !(t + " " <= k)
    {
      assert |t| != 8 && k[|t|] != ' ';
    }
  }

  lemma ExampleCalleTwice(k: string, once: string, twice: string)
    requires k == "calle calle mayor" && once == "calle mayor" && twice == "mayor"
    ensures Normalize(k) == once && Normalize(once) == twice
  {
    ExampleCalleTwiceShape(k, once, twice);
    ExampleKeyStripped(k, "calle", once);
    ExampleKeyStripped(once, "calle", twice);
  }

  lemma ExampleCalleTwiceShape(k: string, once: string, twice: string)
    requires k == "calle calle mayor" && once == "calle mayor" && twice == "mayor"
    ensures IsLowerKey(k) && "calle" + " " <= k && once == k[6..]
    ensures IsLowerKey(once) && "calle" + " " <= once && twice == once[6..]
  {
    ExampleCalleTwiceKey(k);
    ExampleCalleTwiceKey(once);
    assert k == "calle " + once;
    assert once == "calle " + twice;
  }

  lemma ExampleCalleTwiceKey(k: string)
    requires k == "calle calle mayor" || k == "calle mayor"
    ensures IsLowerKey(k)
  {
  }

  /** The pipeline when step 4 finds no street-type word to remove. */
  lemma NormalizeUnstripped(raw: string, lowered: string, clean: string, key: string)
    requires LowerStr(raw) == lowered && forall i :: 0 <= i < |lowered| ==> IsAscii(lowered[i])
    requires RemovePunctuation(lowered) == clean
    requires forall t :: t in PrefixAlternatives ==> !PrefixThenSpace(clean, t)
    requires CollapseSpaces(clean) == key
    ensures Normalize(raw) == key
  {
    TransliterateAscii(lowered);
  }

  /** Whitespace in front of a key is trimmed by step 5. */
  lemma CollapseLeadingSpace(k: string)
    requires IsStreetKey(k) && k != []
    ensures CollapseSpaces([' '] + k) == k
  {
    var x := [' '] + k;
    KeySpacing(k);
    ConsSingleSpaced(' ', k);
    SingleSpacesFixed(x);
    assert x[1..] == k;
    TrimStartSkipsSpace(x);
    assert TrimEnd(k) == k;
  }

  /** The only whitespace of a street key is single plain spaces, none of
      them in front. */
  lemma KeySpacing(k: string)
    requires IsStreetKey(k)
    ensures OnlyPlainSpaces(k) && NoDoubleSpace(k)
    ensures k != [] ==> !IsSpace(k[0])
  {
    forall i | 0 <= i < |k| ensures IsSpace(k[i]) <==> k[i] == ' ' {
      assert IsKeyChar(k[i]);
    }
  }

  /** The street-type word must stand at position 0: with a space in front,
      ` calle mayor` keeps it, and only the leading space goes. */
  lemma ExampleLeadingSpace()
    ensures Normalize(" calle mayor") == "calle mayor"
  {
    ExampleLeadingSpaceSteps(" calle mayor", "calle mayor");
  }

  lemma ExampleLeadingSpaceSteps(raw: string, key: string)
    requires raw == " calle mayor" && key == "calle mayor"
    ensures Normalize(raw) == key
  {
    ExampleLeadingSpaceClean(raw, key);
    ExampleLeadingSpaceNoWord(raw);
    CollapseLeadingSpace(key);
    NormalizeUnstripped(raw, raw, raw, key);
  }

  lemma ExampleLeadingSpaceClean(raw: string, key: string)
    requires raw == " calle mayor" && key == "calle mayor"
    ensures LowerStr(raw) == raw && forall i :: 0 <= i < |raw| ==> IsAscii(raw[i])
    ensures RemovePunctuation(raw) == raw && IsLowerKey(key) && raw == [' '] + key
  {
    ExampleLeadingSpaceLowered(raw);
    ExampleLeadingSpaceKept(raw);
    ExampleLeadingSpaceKey(raw, key);
  }

  lemma ExampleLeadingSpaceLowered(raw: string)
    requires raw == " calle mayor"
    ensures LowerStr(raw) == raw && forall i :: 0 <= i < |raw| ==> IsAscii(raw[i])
  {
  }

  lemma ExampleLeadingSpaceKept(raw: string)
    requires raw == " calle mayor"
    ensures RemovePunctuation(raw) == raw
  {
    assert forall i :: 0 <= i < |raw| ==> IsKept(raw[i]);
    RemovePunctuationKeepsClean(raw);
  }

  lemma ExampleLeadingSpaceKey(raw: string, key: string)
    requires raw == " calle mayor" && key == "calle mayor"
    ensures IsLowerKey(key) && raw == [' '] + key
  {
  }

  lemma ExampleLeadingSpaceNoWord(raw: string)
    requires raw == " calle mayor"
    ensures forall t :: t in PrefixAlternatives ==> !PrefixThenSpace(raw, t)
  {
    forall t | t in PrefixAlternatives
      ensures !PrefixThenSpace(raw, t)
    {
      assert t[0] != ' ';
    }
  }

  /** Without whitespace after it the abbreviation is not a street type:
      `Avda.Independencia` loses only its period. */
  lemma ExampleNoSpaceAfterAbbreviation()
    ensures Normalize("Avda.Independencia") == "avdaindependencia"
  {
    ExampleNoSpaceSteps("Avda.Independencia", "avda.independencia", "independencia", "avdaindependencia");
  }

  lemma ExampleNoSpaceSteps(raw: string, lowered: string, rest: string, key: string)
    requires raw == "Avda.Independencia" && lowered == "avda.independencia"
    requires rest == "independencia" && key == "avdaindependencia"
    ensures Normalize(raw) == key
  {
    ExampleNoSpaceLowered(raw, lowered);
    ExampleNoSpaceCleaned(lowered, rest, key);
    ExampleNoSpaceNoWord(key);
    ExampleNoSpaceKey(key);
    CollapseKeyFixed(key);
    NormalizeUnstripped(raw, lowered, key, key);
  }

  lemma ExampleNoSpaceLowered(raw: string, lowered: string)
    requires raw == "Avda.Independencia" && lowered == "avda.independencia"
    ensures LowerStr(raw) == lowered && forall i :: 0 <= i < |lowered| ==> IsAscii(lowered[i])
  {
  }

  lemma ExampleNoSpaceCleaned(lowered: string, rest: string, key: string)
    requires lowered == "avda.independencia" && rest == "independencia" && key == "avdaindependencia"
    ensures RemovePunctuation(lowered) == key
  {
    ExampleAbbreviationCleaned();
    ExampleNoSpaceRest(rest);
    ExampleNoSpaceSplit(lowered, rest, key);
    RemovePunctuationAppend("avda.", rest);
  }

  lemma ExampleNoSpaceRest(rest: string)
    requires rest == "independencia"
    ensures RemovePunctuation(rest) == rest
  {
    assert forall i :: 0 <= i < |rest| ==> IsKept(rest[i]);
    RemovePunctuationKeepsClean(rest);
  }

  lemma ExampleNoSpaceSplit(lowered: string, rest: string, key: string)
    requires lowered == "avda.independencia" && rest == "independencia" && key == "avdaindependencia"
    ensures lowered == "avda." + rest && key == "avda" + rest
  {
  }

  lemma ExampleNoSpaceNoWord(key: string)
    requires key == "avdaindependencia"
    ensures forall t :: t in PrefixAlternatives ==> !PrefixThenSpace(key, t)
  {
    forall t | t in PrefixAlternatives
      ensures !PrefixThenSpace(key, t)
    {
      assert forall i :: 0 <= i < |key| ==> !IsSpace(key[i]);
    }
  }

  lemma ExampleNoSpaceKey(key: string)
    requires key == "avdaindependencia"
    ensures IsLowerKey(key)
  {
  }

  /** `unidecode` spells some Latin-1 symbols with capitals, and those
      capitals reach the key: "§x" normalises to "SSx". */
  lemma ExampleSectionSign()
    ensures Normalize("§x") == "SSx"
  {
    ExampleSectionSteps("§x", "SSx");
  }

  /** Normalising the key "SSx" again lower-cases it to "ssx". */
  lemma ExampleSectionAgain()
    ensures Normalize("SSx") == "ssx"
  {
    ExampleSectionAgainSteps("SSx", "ssx");
  }

  lemma ExampleSectionAgainSteps(key: string, lowered: string)
    requires key == "SSx" && lowered == "ssx"
    ensures Normalize(key) == lowered
  {
    ExampleSectionKey(key);
    NormalizeKeyLowered(key);
    ExampleSectionLowerKey(key, lowered);
    NormalizeKeyAgain(lowered);
  }

  lemma ExampleSectionLowerKey(key: string, lowered: string)
    requires key == "SSx" && lowered == "ssx"
    ensures LowerStr(key) == lowered
    ensures forall t :: t in StreetTypes ==> !(t + " " <= lowered)
  {
    assert LowerChar('S') == 's';
    forall t | t in StreetTypes ensures !(t + " " <= lowered) {
      assert t[0] != lowered[0];
    }
  }

  lemma ExampleSectionSteps(raw: string, key: string)
    requires raw == "§x" && key == "SSx"
    ensures Normalize(raw) == key
  {
    ExampleSectionLowered(raw);
    ExampleSectionSpelt(raw, key);
    assert forall i :: 0 <= i < |key| ==> IsKept(key[i]);
    RemovePunctuationKeepsClean(key);
    ExampleSectionNoWord(key);
    ExampleSectionKey(key);
    CollapseKeyFixed(key);
  }

  lemma ExampleSectionLowered(raw: string)
    requires raw == "§x"
    ensures LowerStr(raw) == raw
  {
    assert LowerChar('§') == '§';
  }

  lemma ExampleSectionSpelt(raw: string, key: string)
    requires raw == "§x" && key == "SSx"
    ensures Transliterate(raw) == key
  {
    assert TranslitChar('§') == "SS";
    assert Transliterate(raw) == "SS" + Transliterate("x");
  }

  lemma ExampleSectionNoWord(key: string)
    requires key == "SSx"
    ensures StripStreetPrefix(key) == key
  {
    forall t | t in PrefixAlternatives
      ensures !PrefixThenSpace(key, t)
    {
      assert key[0] == 'S' && (|t| > 0 ==> t[0] != 'S');
    }
  }

  lemma ExampleSectionKey(key: string)
    requires key == "SSx"
    ensures IsStreetKey(key) && !IsLowerKey(key)
  {
    assert !IsLowerKeyChar(key[0]);
  }
}
