/** The pure helpers of the mixed-character cleaner
    (cmd/fix_mixed_chars/main.go:201-237, 239-307, 383-395): which runes
    count as Arabic script, how a transliteration is cleaned of them, which
    of them it held, and the two display helpers. */
module MixedChars {
  import opened Text
  import opened Regex
  import opened Script
  import opened Spacing

  /** `isArabicScript`: Arabic, Arabic Supplement, Arabic Extended-A and
      the two presentation-form blocks. */
  predicate IsArabicScript(r: char) {
    ('\U{0600}' <= r <= '\U{06FF}')
    || ('\U{0750}' <= r <= '\U{077F}')
    || ('\U{08A0}' <= r <= '\U{08FF}')
    || ('\U{FB50}' <= r <= '\U{FDFF}')
    || ('\U{FE70}' <= r <= '\U{FEFF}')
  }

  /** The transliterator's script test looks at the first of these blocks
      only: every rune it counts is Arabic script here too. */
  lemma ArabicBlockIsArabicScript(c: char)
    ensures InArabicBlock(c) ==> IsArabicScript(c)
    ensures IsArabicScript(c) && c < '\U{0700}' ==> InArabicBlock(c)
  {
  }

  // ---------------------------------------------------------------------
  // cleanMixedCharacters

  /** The `arabicToLatin` table of `cleanMixedCharacters`: its letters
      and its marks (the two parts have no key in common). */
  const CleanTable: map<char, string> := CleanLetters + CleanMarks

  /** The letters of the table, Arabic and Persian. */
  const CleanLetters: map<char, string> := map[
    '\U{06CC}' := "i",
    '\U{0627}' := "a",
    '\U{0639}' := "'",
    '\U{062D}' := "h",
    '\U{062E}' := "kh",
    '\U{062F}' := "d",
    '\U{0630}' := "dh",
    '\U{0631}' := "r",
    '\U{0632}' := "z",
    '\U{0633}' := "s",
    '\U{0634}' := "sh",
    '\U{0635}' := "s",
    '\U{0636}' := "d",
    '\U{0637}' := "t",
    '\U{0638}' := "z",
    '\U{063A}' := "gh",
    '\U{0641}' := "f",
    '\U{0642}' := "q",
    '\U{06A9}' := "k",
    '\U{06AF}' := "g",
    '\U{0644}' := "l",
    '\U{0645}' := "m",
    '\U{0646}' := "n",
    '\U{0647}' := "h",
    '\U{0648}' := "w",
    '\U{0621}' := "'",
    '\U{0624}' := "u'",
    '\U{0626}' := "i'",
    '\U{0629}' := "h",
    '\U{0622}' := "a",
    '\U{0623}' := "a",
    '\U{0625}' := "i",
    '\U{0698}' := "zh",
    '\U{0686}' := "ch",
    '\U{067E}' := "p",
    '\U{06A4}' := "v"
  ]

  /** The vowel marks, tanwin, sukun, shadda and dagger alef. */
  const CleanMarks: map<char, string> := map[
    '\U{064E}' := "a",
    '\U{0650}' := "i",
    '\U{064F}' := "u",
    '\U{064B}' := "an",
    '\U{064D}' := "in",
    '\U{064C}' := "un",
    '\U{0652}' := "",
    '\U{0651}' := "",
    '\U{0670}' := "a"
  ]

  /** Text of ASCII runes only. */
  predicate IsAscii(s: string) {
    forall i :: 0 <= i < |s| ==> s[i] < '\U{0080}'
  }

  /** A table from Arabic-script runes to ASCII text. */
  predicate LatinTable(m: map<char, string>) {
    forall c :: c in m ==> IsArabicScript(c) && IsAscii(m[c])
  }

  lemma CleanTableIsLatin()
    ensures LatinTable(CleanTable)
  {
    CleanKeysInBlock();
    CleanValuesAscii();
  }

  lemma CleanKeysInBlock()
    ensures forall c :: c in CleanTable ==> InArabicBlock(c)
  {
    CleanLettersInBlock();
    CleanMarksInBlock();
  }

  lemma CleanLettersInBlock()
    ensures forall c :: c in CleanLetters ==> InArabicBlock(c)
  {
  }

  lemma CleanMarksInBlock()
    ensures forall c :: c in CleanMarks ==> InArabicBlock(c)
  {
  }

  lemma CleanValuesAscii()
    ensures forall c :: c in CleanTable ==> IsAscii(CleanTable[c])
  {
    CleanLettersAscii();
    CleanMarksAscii();
  }

  lemma CleanLettersAscii()
    ensures forall c :: c in CleanLetters ==> IsAscii(CleanLetters[c])
  {
  }

  lemma CleanMarksAscii()
    ensures forall c :: c in CleanMarks ==> IsAscii(CleanMarks[c])
  {
  }

  /** What the loop writes for one rune: a rune outside the Arabic script
      itself, an Arabic-script rune its table entry, or nothing when the
      table has none. */
  function RuneClean(c: char, table: map<char, string>): string {
    if IsArabicScript(c) then (if c in table then table[c] else "") else [c]
  }

  /** The builder after the loop has seen the runes of `s`. */
  function CleanRunes(s: string, table: map<char, string>): string
    decreases |s|
  {
    if |s| == 0 then "" else CleanRunes(s[..|s| - 1], table) + RuneClean(s[|s| - 1], table)
  }

  /** `cleanMixedCharacters` as a function of its input: the rune pass,
      `\s+` -> " " and `strings.TrimSpace`. */
  function CleanMixed(text: string): string {
    CleanWith(text, CleanTable)
  }

  /** The same with any table. */
  function CleanWith(text: string, table: map<char, string>): string {
    TrimSpace(ReplaceAll(CleanRunes(text, table), CollapseSpaces))
  }

  /** `cleanMixedCharacters`: one pass over the runes writing to a builder,
      then the space collapse and the trim. */
  method CleanMixedCharacters(text: string) returns (cleaned: string)
    ensures cleaned == CleanMixed(text)
  {
    var b := "";
    for i := 0 to |text|
      invariant b == CleanRunes(text[..i], CleanTable)
    {
      assert text[..i + 1][..i] == text[..i];
      var r := text[i];
      if IsArabicScript(r) {
        if r in CleanTable {
          b := b + CleanTable[r];
        } else {
          assert b + "" == b;
        }
      } else {
        b := b + [r];
      }
    }
    assert text[..|text|] == text;
    cleaned := ReplaceAll(b, CollapseSpaces);
    cleaned := TrimSpace(cleaned);
  }

  // ---------------------------------------------------------------------
  // Properties of the rune pass

  /** The pass works rune by rune: on a concatenation it cleans each part. */
  lemma {:induction false} CleanRunesConcat(a: string, b: string, table: map<char, string>)
    ensures CleanRunes(a + b, table) == CleanRunes(a, table) + CleanRunes(b, table)
    decreases |b|
  {
    if |b| == 0 {
      assert a + b == a;
    } else {
      var ab, init, last := a + b, b[..|b| - 1], b[|b| - 1];
      assert ab[..|ab| - 1] == a + init;
      assert ab[|ab| - 1] == last;
      assert CleanRunes(ab, table) == CleanRunes(a + init, table) + RuneClean(last, table);
      assert CleanRunes(b, table) == CleanRunes(init, table) + RuneClean(last, table);
      CleanRunesConcat(a, init, table);
    }
  }

  /** Text without Arabic-script runes is kept as it is, in order. */
  lemma {:induction false} CleanRunesKeepsPlain(s: string, table: map<char, string>)
    requires forall i :: 0 <= i < |s| ==> !IsArabicScript(s[i])
    ensures CleanRunes(s, table) == s
    decreases |s|
  {
    if |s| > 0 {
      CleanRunesKeepsPlain(s[..|s| - 1], table);
      assert s == s[..|s| - 1] + [s[|s| - 1]];
    }
  }

  /** With a table into ASCII, no Arabic-script rune is left. */
  lemma {:induction false} CleanRunesLeavesNoScript(s: string, table: map<char, string>)
    requires LatinTable(table)
    ensures forall c :: c in CleanRunes(s, table) ==> !IsArabicScript(c)
    decreases |s|
  {
    if |s| > 0 {
      CleanRunesLeavesNoScript(s[..|s| - 1], table);
      var image := RuneClean(s[|s| - 1], table);
      assert forall c :: c in image ==> !IsArabicScript(c);
    }
  }

  /** Beh, teh, jeem, yeh and kaf have no entry in the table: the pass
      deletes them. */
  lemma UnmappedLettersDeleted()
    ensures Deleted('\U{0628}') && Deleted('\U{062A}') && Deleted('\U{062C}')
    ensures Deleted('\U{064A}') && Deleted('\U{0643}')
  {
    UnmappedKeys();
  }

  lemma UnmappedKeys()
    ensures forall c :: c in CleanTable ==>
      c != '\U{0628}' && c != '\U{062A}' && c != '\U{062C}' && c != '\U{064A}' && c != '\U{0643}'
  {
    UnmappedLetters();
    MarksAboveLetters();
  }

  lemma MarksAboveLetters()
    ensures forall c :: c in CleanMarks ==> c > '\U{064A}'
  {
  }

  lemma UnmappedLetters()
    ensures forall c :: c in CleanLetters ==>
      c != '\U{0628}' && c != '\U{062A}' && c != '\U{062C}' && c != '\U{064A}' && c != '\U{0643}'
  {
  }

  /** An Arabic-script rune the pass drops. */
  predicate Deleted(c: char) {
    IsArabicScript(c) && RuneClean(c, CleanTable) == ""
  }

  // ---------------------------------------------------------------------
  // Properties of cleanMixedCharacters

  /** Text as the cleaner leaves it: no Arabic-script rune, no white space
      at either end, no two adjacent `\s` runes and no `\s` rune but the
      blank. */
  predicate IsClean(s: string) {
    (forall c :: c in s ==> !IsArabicScript(c))
    && IsTrimmed(s) && NoDoubleSpace(s) && SpacesAreBlanks(s)
  }

  /** The cleaner leaves clean text. */
  lemma CleanMixedIsClean(text: string)
    ensures IsClean(CleanMixed(text))
  {
    CleanTableIsLatin();
    CleanWithIsClean(text, CleanTable);
  }

  lemma CleanWithIsClean(text: string, table: map<char, string>)
    requires LatinTable(table)
    ensures IsClean(CleanWith(text, table))
  {
    var b := CleanRunes(text, table);
    CleanRunesLeavesNoScript(text, table);
    var t := ReplaceAll(b, CollapseSpaces);
    CollapseRunesFrom(b, 0);
    CollapseSpacing(b);
    assert forall c :: c in t ==> !IsArabicScript(c);
    TrimmedIsClean(t);
  }

  lemma TrimmedIsClean(t: string)
    requires forall c :: c in t ==> !IsArabicScript(c)
    requires NoDoubleSpace(t) && SpacesAreBlanks(t)
    ensures IsClean(TrimSpace(t))
  {
    var k := TrimSpaceIsSlice(t);
    var r := TrimSpace(t);
    RunesFromSlice(t, k, k + |r|);
    TrimKeepsSpacing(t, {});
  }

  /** Clean text is left as it is, and only clean text: the cleaner is
      idempotent, and it reports a change exactly on text that is not
      clean. */
  lemma CleanMixedFixedPoints(text: string)
    ensures CleanMixed(text) == text <==> IsClean(text)
    ensures CleanMixed(CleanMixed(text)) == CleanMixed(text)
  {
    CleanMixedIsClean(text);
    if IsClean(text) {
      CleanKept(text, CleanTable);
    }
    CleanKept(CleanMixed(text), CleanTable);
  }

  lemma CleanKept(s: string, table: map<char, string>)
    requires IsClean(s)
    ensures CleanWith(s, table) == s
  {
    CleanRunesKeepsPlain(s, table);
    CollapseIdentity(s);
  }

  // ---------------------------------------------------------------------
  // findArabicCharacters

  /** The distinct Arabic-script runes of `s`, each where it first occurs. */
  function ArabicCharsOf(s: string): seq<char>
    decreases |s|
  {
    if |s| == 0 then []
    else
      var seen := ArabicCharsOf(s[..|s| - 1]);
      var c := s[|s| - 1];
      if IsArabicScript(c) && c !in seen then seen + [c] else seen
  }

  /** Each rune as a one-rune string, as `string(r)` gives it. */
  function RuneStrings(cs: seq<char>): (ss: seq<string>)
    ensures |ss| == |cs| && forall i :: 0 <= i < |cs| ==> ss[i] == [cs[i]]
  {
    seq(|cs|, i requires 0 <= i < |cs| => [cs[i]])
  }

  /** `findArabicCharacters`: a pass over the runes with a set of the
      strings already reported. */
  method FindArabicCharacters(text: string) returns (arabicChars: seq<string>)
    ensures arabicChars == RuneStrings(ArabicCharsOf(text))
  {
    arabicChars := [];
    var seen: set<string> := {};
    for i := 0 to |text|
      invariant arabicChars == RuneStrings(ArabicCharsOf(text[..i]))
      invariant forall c :: [c] in seen <==> c in ArabicCharsOf(text[..i])
      invariant forall w :: w in seen ==> |w| == 1
    {
      assert text[..i + 1][..i] == text[..i];
      var r := text[i];
      if IsArabicScript(r) {
        var runeText := [r];
        if runeText !in seen {
          arabicChars := arabicChars + [runeText];
          seen := seen + {runeText};
        }
      }
    }
    assert text[..|text|] == text;
  }

  /** The first index of `c` in `s`. */
  function IndexOf(s: string, c: char): (k: nat)
    requires c in s
    ensures k < |s| && s[k] == c && forall j :: 0 <= j < k ==> s[j] != c
    decreases |s|
  {
    var init := s[..|s| - 1];
    if c in init then
      var k := IndexOf(init, c);
      assert forall j :: 0 <= j <= k ==> s[j] == init[j];
      k
    else
      assert forall j :: 0 <= j < |s| - 1 ==> s[j] == init[j];
      |s| - 1
  }

  /** No rune occurs twice. */
  predicate Distinct(a: seq<char>) {
    forall i, j :: 0 <= i < j < |a| ==> a[i] != a[j]
  }

  /** The runes of `a` occur in `s`, in the order of their first
      occurrence there. */
  predicate InFirstOccurrenceOrder(a: seq<char>, s: string) {
    forall i, j :: 0 <= i < j < |a| ==> a[i] in s && a[j] in s && IndexOf(s, a[i]) < IndexOf(s, a[j])
  }

  /** The runes found are Arabic script and occur in the text; every
      Arabic-script rune of the text is found; none is found twice; and
      they come in the order of their first occurrence. */
  lemma ArabicCharsSpec(s: string)
    ensures var a := ArabicCharsOf(s);
      (forall i :: 0 <= i < |a| ==> IsArabicScript(a[i]) && a[i] in s)
      && (forall c :: c in s && IsArabicScript(c) ==> c in a)
      && Distinct(a)
      && InFirstOccurrenceOrder(a, s)
  {
    ArabicCharsSound(s);
    ArabicCharsComplete(s);
    ArabicCharsDistinct(s);
    ArabicCharsInOrder(s);
  }

  lemma {:induction false} ArabicCharsSound(s: string)
    ensures forall c :: c in ArabicCharsOf(s) ==> IsArabicScript(c) && c in s
    decreases |s|
  {
    if |s| > 0 {
      var init := s[..|s| - 1];
      ArabicCharsSound(init);
      assert s == init + [s[|s| - 1]];
    }
  }

  lemma {:induction false} ArabicCharsComplete(s: string)
    ensures forall c :: c in s && IsArabicScript(c) ==> c in ArabicCharsOf(s)
    decreases |s|
  {
    if |s| > 0 {
      var init := s[..|s| - 1];
      var last := s[|s| - 1];
      ArabicCharsComplete(init);
      assert s == init + [last];
      forall c | c in s && IsArabicScript(c)
        ensures c in ArabicCharsOf(s)
      {
        if c != last {
          assert c in init;
        }
      }
    }
  }

  lemma {:induction false} ArabicCharsDistinct(s: string)
    ensures Distinct(ArabicCharsOf(s))
    decreases |s|
  {
    if |s| > 0 {
      var init := s[..|s| - 1];
      var last := s[|s| - 1];
      ArabicCharsDistinct(init);
      var p := ArabicCharsOf(init);
      if IsArabicScript(last) && last !in p {
        var a := p + [last];
        assert ArabicCharsOf(s) == a;
        forall i, j | 0 <= i < j < |a|
          ensures a[i] != a[j]
        {
          assert a[i] == p[i];
          if j < |p| {
            assert a[j] == p[j];
          } else {
            assert p[i] in p;
          }
        }
      } else {
        assert ArabicCharsOf(s) == p;
      }
    }
  }

  lemma {:induction false} ArabicCharsInOrder(s: string)
    ensures InFirstOccurrenceOrder(ArabicCharsOf(s), s)
    decreases |s|
  {
    if |s| > 0 {
      var init := s[..|s| - 1];
      var last := s[|s| - 1];
      ArabicCharsInOrder(init);
      ArabicCharsSound(init);
      ArabicCharsComplete(init);
      var p := ArabicCharsOf(init);
      assert s == init + [last];
      forall c | c in init
        ensures c in s && IndexOf(s, c) == IndexOf(init, c)
      {
      }
      if IsArabicScript(last) && last !in p {
        var a := p + [last];
        assert ArabicCharsOf(s) == a;
        assert last !in init;
        assert IndexOf(s, last) == |s| - 1;
        forall i, j | 0 <= i < j < |a|
          ensures a[i] in s && a[j] in s && IndexOf(s, a[i]) < IndexOf(s, a[j])
        {
          assert a[i] == p[i] && p[i] in init;
          assert IndexOf(s, a[i]) == IndexOf(init, p[i]) < |init|;
          if j < |p| {
            assert a[j] == p[j] && p[j] in init;
            assert IndexOf(s, a[j]) == IndexOf(init, p[j]);
          } else {
            assert a[j] == last;
          }
        }
      } else {
        assert ArabicCharsOf(s) == p;
      }
    }
  }

  // ---------------------------------------------------------------------
  // analyzeMixedCharacters

  /** `FixRecord`. */
  datatype FixRecord = FixRecord(
    version: string,
    sourceId: string,
    language: string,
    originalText: string,
    cleanedText: string,
    hasMixedChars: bool,
    arabicChars: seq<string>)

  /** `analyzeMixedCharacters`: a copy of the record with the cleaned text,
      the change flag and, when the text changed, the Arabic-script runes
      of the original. */
  method AnalyzeMixedCharacters(record: FixRecord) returns (fix: FixRecord)
    ensures fix.cleanedText == CleanMixed(record.originalText)
    ensures fix.hasMixedChars <==> !IsClean(record.originalText)
    ensures fix.arabicChars == if fix.hasMixedChars then RuneStrings(ArabicCharsOf(record.originalText)) else record.arabicChars
    ensures fix.version == record.version && fix.sourceId == record.sourceId
    ensures fix.language == record.language && fix.originalText == record.originalText
  {
    fix := record;
    var cleaned := CleanMixedCharacters(record.originalText);
    fix := fix.(cleanedText := cleaned);
    fix := fix.(hasMixedChars := record.originalText != fix.cleanedText);
    if fix.hasMixedChars {
      var chars := FindArabicCharacters(record.originalText);
      fix := fix.(arabicChars := chars);
    }
    CleanMixedFixedPoints(record.originalText);
  }

  /** A change of white space alone is reported with an empty list: "a "
      is cleaned to "a" and holds no Arabic-script rune. */
  lemma SpacingOnlyChange()
    ensures CleanMixed("a ") == "a" && !IsClean("a ") && ArabicCharsOf("a ") == []
  {
    SpacingOnlyChangeWith(CleanTable);
    assert !IsTrimmed("a ");
  }

  lemma SpacingOnlyChangeWith(table: map<char, string>)
    ensures CleanWith("a ", table) == "a"
  {
    var s := "a ";
    assert !IsArabicScript(s[0]) && !IsArabicScript(s[1]);
    CleanRunesKeepsPlain(s, table);
    assert !IsRegexSpace(s[0]);
    CollapseIdentity(s);
    TrimTrailingBlank('a');
  }

  /** A word rune and a blank trim to the word rune. */
  lemma TrimTrailingBlank(c: char)
    requires IsWordChar(c)
    ensures TrimSpace([c, ' ']) == [c]
  {
    var s := [c, ' '];
    WordCharIsNotSpace(c);
    assert TrimLeft(s) == s;
    assert IsUnicodeSpace(s[1]);
    assert s[..1] == [c];
    assert TrimRight(s) == TrimRight([c]);
  }

  // ---------------------------------------------------------------------
  // Display helpers

  /** "..." in bytes. */
  const Ellipsis: seq<byte> := [46, 46, 46]

  /** `truncateString` on the bytes of a Go string: the string itself when
      it has at most `maxLen` bytes, otherwise its first `maxLen` bytes and
      "...". A negative `maxLen` makes the slice expression panic. */
  function TruncateString(s: seq<byte>, maxLen: int): (r: Outcome<seq<byte>>)
    ensures r.Panics? <==> maxLen < 0
    ensures r.Returns? ==> |r.value| <= |s| || |r.value| == maxLen + 3
    ensures r.Returns? && |s| <= maxLen ==> r.value == s
    ensures r.Returns? && 0 <= maxLen < |s| ==> |r.value| == maxLen + 3 && r.value[..maxLen] == s[..maxLen] && r.value[maxLen..] == Ellipsis
  {
    if |s| <= maxLen then Returns(s)
    else if maxLen < 0 then Panics
    else Returns(s[..maxLen] + Ellipsis)
  }

  /** On ASCII text, bytes are runes: cutting the bytes cuts the runes. */
  lemma TruncateAscii(text: string, maxLen: nat)
    requires IsAscii(text) && maxLen < |text|
    ensures TruncateString(Utf8(text), maxLen) == Returns(Utf8(text[..maxLen] + "..."))
  {
    var head := text[..maxLen];
    Utf8AsciiPrefix(text, maxLen);
    Utf8Concat(head, "...");
    EllipsisBytes();
    assert |Utf8(text)| > maxLen;
  }

  lemma EllipsisBytes()
    ensures Utf8("...") == Ellipsis
  {
    assert EncodeRune('.') == [46];
    assert "..."[1..] == ".." && ".."[1..] == "." && "."[1..] == "";
  }

  /** The bytes of an ASCII prefix are the prefix of the bytes. */
  lemma Utf8AsciiPrefix(text: string, n: nat)
    requires IsAscii(text) && n <= |text|
    ensures Utf8(text[..n]) == Utf8(text)[..n]
  {
    var head, tail := text[..n], text[n..];
    assert text == head + tail;
    Utf8Concat(head, tail);
    Utf8AsciiBytes(head);
  }

  /** UTF-8 encodes rune by rune. */
  lemma {:induction false} Utf8Concat(a: string, b: string)
    ensures Utf8(a + b) == Utf8(a) + Utf8(b)
    decreases |a|
  {
    if |a| > 0 {
      assert (a + b)[1..] == a[1..] + b;
      Utf8Concat(a[1..], b);
    } else {
      assert a + b == b;
    }
  }

  /** The bytes of ASCII text are its runes' code points. */
  lemma {:induction false} Utf8AsciiBytes(s: string)
    requires IsAscii(s)
    ensures |Utf8(s)| == |s| && forall i :: 0 <= i < |s| ==> Utf8(s)[i] == s[i] as int as byte
    decreases |s|
  {
    if |s| > 0 {
      Utf8AsciiBytes(s[1..]);
      assert EncodeRune(s[0]) == [s[0] as int as byte];
    }
  }

  /** `min`. */
  function Min(a: int, b: int): (m: int)
    ensures m <= a && m <= b && (m == a || m == b)
  {
    if a < b then a else b
  }
}
