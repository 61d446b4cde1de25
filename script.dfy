/** Script and language classification (transliterator.go:350-358, 509-531). */
module Script {
  import opened Text

  /** The source language (transliterator.go:14-19). */
  datatype Language = Arabic | Persian

  /** A rune of the Arabic Unicode block U+0600-U+06FF. */
  predicate InArabicBlock(c: char) {
    '\U{0600}' <= c <= '\U{06FF}'
  }

  /** `containsArabicScript`: scans the runes and stops at the first one in
      the Arabic block. */
  function ContainsArabicScript(text: string): (b: bool)
    ensures b <==> exists i :: 0 <= i < |text| && InArabicBlock(text[i])
  {
    if |text| == 0 then false
    else if InArabicBlock(text[0]) then true
    else
      var rest := ContainsArabicScript(text[1..]);
      assert forall i :: 1 <= i < |text| ==> text[i] == text[1..][i - 1];
      rest
  }

  lemma ContainsArabicScriptConcat(a: string, b: string)
    ensures ContainsArabicScript(a + b) <==> ContainsArabicScript(a) || ContainsArabicScript(b)
  {
    var s := a + b;
    assert forall i :: 0 <= i < |a| ==> s[i] == a[i];
    assert forall i :: 0 <= i < |b| ==> s[|a| + i] == b[i];
  }

  // ---------------------------------------------------------------------
  // IsArabic

  /** The escape letters Go's regexp syntax accepts after a backslash:
      octal digits, `\x`, the C escapes, the Perl classes, `\p`/`\P`,
      the assertions and `\Q`/`\E`; any other letter or digit is an invalid
      escape (ASCII punctuation may always be escaped). */
  const RegexpEscapeLetters: set<char> := {
    '0', '1', '2', '3', '4', '5', '6', '7', 'x', 'a', 'f', 'n', 'r', 't', 'v',
    'd', 'D', 's', 'S', 'w', 'W', 'p', 'P', 'b', 'B', 'A', 'z', 'Q', 'E'
  }

  predicate IsAsciiAlnum(c: char) {
    ('a' <= c <= 'z') || ('A' <= c <= 'Z') || ('0' <= c <= '9')
  }

  /** Every backslash of `pattern` starts an escape that Go's regexp
      compiler accepts (the part of `regexp.MustCompile` this model needs). */
  predicate EscapesValid(pattern: string)
    decreases |pattern|
  {
    if |pattern| == 0 then true
    else if pattern[0] == '\\' then
      |pattern| > 1
      && (pattern[1] in RegexpEscapeLetters || (pattern[1] as int < 0x80 && !IsAsciiAlnum(pattern[1])))
      && EscapesValid(pattern[2..])
    else EscapesValid(pattern[1..])
  }

  /** The pattern text of transliterator.go:511: a raw string, so the
      regexp compiler itself sees the backslash-u escapes. */
  const IsArabicPattern: string := "[\\u0600-\\u06FF]"

  /** What a call of a function that compiles its pattern with `MustCompile` yields. */
  datatype Outcome<T> = Returns(value: T) | Panics

  /** `IsArabic` as written: `MustCompile` panics when the pattern does
      not compile; otherwise the pattern finds a rune of the Arabic block. */
  function IsArabicAsWritten(text: string): (r: Outcome<bool>)
    ensures r.Panics? <==> !EscapesValid(IsArabicPattern)
    ensures r.Returns? ==> r.value == ContainsArabicScript(text)
  {
    if EscapesValid(IsArabicPattern) then Returns(ContainsArabicScript(text)) else Panics
  }

  /** Go's regexp syntax has no `\u` escape: `IsArabic` panics on every input. */
  lemma IsArabicAlwaysPanics(text: string)
    ensures IsArabicAsWritten(text) == Panics
  {
    assert IsArabicPattern[0] != '\\' && IsArabicPattern[1] == '\\';
    assert IsArabicPattern[2] == 'u' && 'u' !in RegexpEscapeLetters;
    assert !EscapesValid(IsArabicPattern[1..]);
  }

  /** The pattern the function evidently intends, `[\x{0600}-\x{06FF}]`
      in Go's `\x{...}` form, assembled from its pieces. */
  const HexEscape: string := "\\x"
  const IsArabicPatternIntended: string := "[" + HexEscape + "{0600}-" + HexEscape + "{06FF}]"

  lemma IntendedPatternCompiles()
    ensures EscapesValid(IsArabicPatternIntended)
  {
    var x := HexEscape;
    assert EscapesValid(x) by { assert x[2..] == ""; }
    NoBackslashIsValid("[");
    NoBackslashIsValid("{0600}-");
    NoBackslashIsValid("{06FF}]");
    EscapesValidConcat("[", x);
    EscapesValidConcat("[" + x, "{0600}-");
    EscapesValidConcat("[" + x + "{0600}-", x);
    EscapesValidConcat("[" + x + "{0600}-" + x, "{06FF}]");
  }

  /** Runes other than a backslash never make a pattern invalid. */
  lemma {:induction false} NoBackslashIsValid(p: string)
    requires forall k :: 0 <= k < |p| ==> p[k] != '\\'
    ensures EscapesValid(p)
    decreases |p|
  {
    if |p| > 0 {
      NoBackslashIsValid(p[1..]);
    }
  }

  /** Two valid patterns side by side form a valid pattern. */
  lemma {:induction false} EscapesValidConcat(a: string, b: string)
    requires EscapesValid(a) && EscapesValid(b)
    ensures EscapesValid(a + b)
    decreases |a|
  {
    if |a| > 0 {
      if a[0] == '\\' {
        EscapesValidConcat(a[2..], b);
        assert (a + b)[1] == a[1];
        assert (a + b)[2..] == a[2..] + b;
      } else {
        EscapesValidConcat(a[1..], b);
        assert (a + b)[0] == a[0];
        assert (a + b)[1..] == a[1..] + b;
      }
    } else {
      assert a + b == b;
    }
  }

  /** `IsArabic` as intended: the text holds a rune of the Arabic block,
      which is exactly what `containsArabicScript` tests. */
  function IsArabic(text: string): (b: bool)
    ensures b <==> ContainsArabicScript(text)
    ensures b <==> exists i :: 0 <= i < |text| && InArabicBlock(text[i])
  {
    exists i :: 0 <= i < |text| && InArabicBlock(text[i])
  }

  // ---------------------------------------------------------------------
  // IsPersian and AutoDetectLanguage

  /** Pe, che, zhe and gaf: the letters of transliterator.go:519. */
  const PersianOnlyLetters: set<char> := {'\U{067E}', '\U{0686}', '\U{0698}', '\U{06AF}'}

  /** The alternatives of transliterator.go:520, in order: khuda, parvardigar,
      az, bih, dar, kih, in, an, mi. Arabic letters have no case, so the
      `(?i)` flag changes nothing. */
  const PersianWords: seq<string> := [
    "\U{062E}\U{062F}\U{0627}",
    "\U{067E}\U{0631}\U{0648}\U{0631}\U{062F}\U{06AF}\U{0627}\U{0631}",
    "\U{0627}\U{0632}",
    "\U{0628}\U{0647}",
    "\U{062F}\U{0631}",
    "\U{06A9}\U{0647}",
    "\U{0627}\U{06CC}\U{0646}",
    "\U{0622}\U{0646}",
    "\U{0645}\U{06CC}"
  ]

  predicate HasPersianLetter(text: string) {
    exists i :: 0 <= i < |text| && text[i] in PersianOnlyLetters
  }

  predicate HasPersianWord(text: string) {
    exists k :: 0 <= k < |PersianWords| && Contains(text, PersianWords[k])
  }

  /** `IsPersian`: a Persian-only letter anywhere, or one of the common
      Persian words as a plain substring (no word boundaries). */
  predicate IsPersian(text: string) {
    HasPersianLetter(text) || HasPersianWord(text)
  }

  /** `AutoDetectLanguage`: Persian exactly when `IsPersian` holds, Arabic
      otherwise. */
  function AutoDetectLanguage(text: string): (l: Language)
    ensures l == Persian <==> IsPersian(text)
    ensures l == Arabic <==> !IsPersian(text)
  {
    if IsPersian(text) then Persian else Arabic
  }

  /** Any text containing a Persian-only letter is Persian. */
  lemma PersianLetterDecides(text: string, i: nat)
    requires i < |text| && text[i] in PersianOnlyLetters
    ensures AutoDetectLanguage(text) == Persian
  {
  }

  /** Text with no Persian-only letter and, for every common word, some letter
      the text lacks is detected as Arabic. */
  lemma {:induction false} MissingLettersMeanArabic(text: string, witnesses: seq<char>)
    requires !HasPersianLetter(text)
    requires |witnesses| == |PersianWords|
    requires forall k :: 0 <= k < |PersianWords| ==> witnesses[k] in PersianWords[k] && witnesses[k] !in text
    ensures AutoDetectLanguage(text) == Arabic
  {
    forall k | 0 <= k < |PersianWords|
      ensures !Contains(text, PersianWords[k])
    {
      NotContainedByMissingChar(text, PersianWords[k], witnesses[k]);
    }
  }

  // The four cases of the repository's language-detection test.

  lemma DetectsBasmalaTitlesAsArabic()
    ensures AutoDetectLanguage(
      "\U{0627}\U{0644}\U{0644}\U{0647} \U{0627}\U{0644}\U{0631}\U{062D}\U{0645}\U{0646} \U{0627}\U{0644}\U{0631}\U{062D}\U{064A}\U{0645}")
      == Arabic
  {
    var text := "\U{0627}\U{0644}\U{0644}\U{0647} \U{0627}\U{0644}\U{0631}\U{062D}\U{0645}\U{0646} \U{0627}\U{0644}\U{0631}\U{062D}\U{064A}\U{0645}";
    // kha, pe, ze, be, dal, kaf, Persian ye, alef madda, Persian ye
    var w := ['\U{062E}', '\U{067E}', '\U{0632}', '\U{0628}', '\U{062F}', '\U{06A9}', '\U{06CC}', '\U{0622}', '\U{06CC}'];
    assert forall k :: 0 <= k < |PersianWords| ==> w[k] in PersianWords[k];
    assert forall i :: 0 <= i < |text| ==> text[i] !in PersianOnlyLetters && text[i] !in w;
    MissingLettersMeanArabic(text, w);
  }

  lemma DetectsPersianLetters()
    ensures AutoDetectLanguage(
      "\U{067E}\U{0631}\U{0648}\U{0631}\U{062F}\U{06AF}\U{0627}\U{0631} \U{0686}\U{0647} \U{06A9}\U{0646}\U{0645}")
      == Persian
  {
    var text := "\U{067E}\U{0631}\U{0648}\U{0631}\U{062F}\U{06AF}\U{0627}\U{0631} \U{0686}\U{0647} \U{06A9}\U{0646}\U{0645}";
    PersianLetterDecides(text, 0);
  }

  lemma DetectsPersianWords()
    ensures AutoDetectLanguage(
      "\U{062E}\U{062F}\U{0627} \U{0645}\U{06CC}\U{200C}\U{062F}\U{0627}\U{0646}\U{062F}")
      == Persian
  {
    var text := "\U{062E}\U{062F}\U{0627} \U{0645}\U{06CC}\U{200C}\U{062F}\U{0627}\U{0646}\U{062F}";
    assert PersianWords[0] <= text;
    assert Contains(text, PersianWords[0]);
  }

  lemma DetectsBasmalaAsArabic()
    ensures AutoDetectLanguage("\U{0628}\U{0633}\U{0645} \U{0627}\U{0644}\U{0644}\U{0647}") == Arabic
  {
    var text := "\U{0628}\U{0633}\U{0645} \U{0627}\U{0644}\U{0644}\U{0647}";
    assert forall i :: 0 <= i < |text| ==> text[i] !in PersianOnlyLetters;
    forall k | 0 <= k < |PersianWords|
      ensures !Contains(text, PersianWords[k])
    {
      if k == 3 {
        // be occurs only at the start, followed by sin rather than he
        NoPairInText(text, '\U{0628}', '\U{0647}');
        assert PersianWords[3] == ['\U{0628}', '\U{0647}'];
      } else {
        // kha, pe, ze, -, dal, kaf, Persian ye, alef madda, Persian ye
        var w := ['\U{062E}', '\U{067E}', '\U{0632}', ' ', '\U{062F}', '\U{06A9}', '\U{06CC}', '\U{0622}', '\U{06CC}'];
        assert w[k] in PersianWords[k] && w[k] !in text;
        NotContainedByMissingChar(text, PersianWords[k], w[k]);
      }
    }
  }

  /** A two-rune word is contained only where its runes are adjacent. */
  lemma {:induction false} NoPairInText(text: string, a: char, b: char)
    requires forall i :: 0 <= i < |text| - 1 ==> !(text[i] == a && text[i + 1] == b)
    ensures !Contains(text, [a, b])
    decreases |text|
  {
    if |text| > 0 {
      if |text| >= 2 {
        assert !(text[0] == a && text[1] == b);
      }
      var rest := text[1..];
      assert forall i :: 0 <= i < |rest| ==> rest[i] == text[i + 1];
      NoPairInText(rest, a, b);
    }
  }
}
