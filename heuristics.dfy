/** `applyHeuristics` and `isBeginningOfDivineName`
    (transliterator.go:373-412): an unknown word is converted rune by rune
    through the vowel-mark and letter tables, then given vowels. */
module Heuristics {
  import opened Text
  import opened Script
  import opened Diacritics
  import opened Tables
  import opened Vowels

  /** Alef, U+0627. */
  const Alif: char := '\U{0627}'
  /** Allah, alef lam lam heh. */
  const Allah: string := "\U{0627}\U{0644}\U{0644}\U{0647}"
  /** Ilahi, alef-with-hamza-below lam heh yeh. */
  const Ilahi: string := "\U{0625}\U{0644}\U{0647}\U{064A}"
  /** Ilah, alef-with-hamza-below lam heh. */
  const Ilah: string := "\U{0625}\U{0644}\U{0647}"

  /** `isBeginningOfDivineName`: the stripped word is Allah or Ilahi, or
      begins with Ilah. */
  predicate IsBeginningOfDivineName(word: string) {
    var clean := StripDiacritics(word);
    clean == Ilahi || clean == Allah || Ilah <= clean
  }

  /** What the `i`-th rune of `word` contributes before vowel insertion:
      a vowel mark its vowel, a letter its letter-map value (a word-initial
      alef of a divine name "I"), any other rune itself. */
  function RuneImage(word: string, i: nat, marks: map<char, string>, letters: map<char, string>): string
    requires i < |word|
  {
    var c := word[i];
    if c in marks then marks[c]
    else if c in letters then
      (if c == Alif && i == 0 && IsBeginningOfDivineName(word) then "I" else letters[c])
    else [c]
  }

  /** The images of the first `n` runes, in order. */
  function ConvertPrefix(word: string, n: nat, marks: map<char, string>, letters: map<char, string>): string
    requires n <= |word|
  {
    if n == 0 then "" else ConvertPrefix(word, n - 1, marks, letters) + RuneImage(word, n - 1, marks, letters)
  }

  function Convert(word: string, marks: map<char, string>, letters: map<char, string>): string {
    ConvertPrefix(word, |word|, marks, letters)
  }

  /** `applyHeuristics` with the vowel-mark and letter tables it reads:
      one pass over the runes writing each image to a builder, then vowel
      insertion. The dictionary argument the source passes on to
      `insertVowels` is not used there and is left out. */
  method ApplyHeuristics(word: string, marks: map<char, string>, letters: map<char, string>) returns (r: string)
    ensures r == InsertVowels(Convert(word, marks, letters))
  {
    var b := "";
    for i := 0 to |word|
      invariant b == ConvertPrefix(word, i, marks, letters)
    {
      var c := word[i];
      if c in marks {
        var vowel := marks[c];
        if vowel != "" {
          b := b + vowel;
        } else {
          assert b + vowel == b;
        }
      } else if c in letters {
        if c == Alif && i == 0 && IsBeginningOfDivineName(word) {
          b := b + "I";
        } else {
          b := b + letters[c];
        }
      } else {
        // a letter or digit and any other rune alike are kept as they are
        b := b + [c];
      }
    }
    r := InsertVowels(b);
  }

  // ---------------------------------------------------------------------
  // Properties

  /** The initial-alef exception fires only for Allah: a word that starts
      with alef U+0627 strips to a text that starts with it too, so it can
      be neither Ilahi nor begin with Ilah, which start with U+0625. */
  lemma AlifInitialOnlyForAllah(word: string)
    requires |word| > 0 && word[0] == Alif
    ensures IsBeginningOfDivineName(word) <==> StripDiacritics(word) == Allah
  {
    var clean := StripDiacritics(word);
    StripKeepsLeadingLetter(word);
    assert clean[0] == Alif;
    assert Ilahi[0] != Alif && Ilah[0] != Alif;
  }

  /** A word that starts with a letter strips to a text that starts with
      it. */
  lemma StripKeepsLeadingLetter(word: string)
    requires |word| > 0 && !IsDiacritic(word[0])
    ensures |StripDiacritics(word)| > 0 && StripDiacritics(word)[0] == word[0]
  {
    var head, tail := [word[0]], word[1..];
    assert word == head + tail;
    StripDiacriticsConcat(head, tail);
    StripDiacriticsRune(word[0]);
  }

  /** A table from runes of the Arabic block to text without Arabic script. */
  predicate ArabicToLatin(m: map<char, string>) {
    forall c :: c in m ==> InArabicBlock(c) && !ContainsArabicScript(m[c])
  }

  /** The transliterator's tables are such tables. */
  lemma TablesShape(lang: Language)
    ensures ArabicToLatin(VowelMarks) && ArabicToLatin(LetterMap(lang))
  {
    TablesAreArabicToLatin(lang);
  }

  /** A rune no table knows comes through unchanged, wherever it is. */
  lemma {:induction false} UnmappedRuneKept(word: string, i: nat, n: nat, marks: map<char, string>, letters: map<char, string>)
    requires i < n <= |word|
    requires word[i] !in marks && word[i] !in letters
    ensures word[i] in ConvertPrefix(word, n, marks, letters)
    decreases n
  {
    var prefix := ConvertPrefix(word, n - 1, marks, letters);
    var image := RuneImage(word, n - 1, marks, letters);
    if i == n - 1 {
      assert image == [word[i]];
      assert (prefix + image)[|prefix|] == word[i];
    } else {
      UnmappedRuneKept(word, i, n - 1, marks, letters);
      var k :| 0 <= k < |prefix| && prefix[k] == word[i];
      assert (prefix + image)[k] == word[i];
    }
  }

  /** Text with no Arabic script passes through the conversion unchanged
      when every key of the tables is in the Arabic block. */
  lemma {:induction false} ConvertWithoutScript(word: string, n: nat, marks: map<char, string>, letters: map<char, string>)
    requires n <= |word| && !ContainsArabicScript(word)
    requires ArabicToLatin(marks) && ArabicToLatin(letters)
    ensures ConvertPrefix(word, n, marks, letters) == word[..n]
    decreases n
  {
    if n > 0 {
      ConvertWithoutScript(word, n - 1, marks, letters);
      var c := word[n - 1];
      assert !InArabicBlock(c);
      assert RuneImage(word, n - 1, marks, letters) == [c];
      assert word[..n] == word[..n - 1] + [c];
    }
  }

  /** A word whose Arabic-script runes are all vowel marks or letters of
      such tables converts to text without Arabic script. */
  lemma {:induction false} KnownRunesLeaveNoScript(word: string, n: nat, marks: map<char, string>, letters: map<char, string>)
    requires n <= |word| && ArabicToLatin(marks) && ArabicToLatin(letters)
    requires forall i :: 0 <= i < |word| && InArabicBlock(word[i]) ==> word[i] in marks || word[i] in letters
    ensures !ContainsArabicScript(ConvertPrefix(word, n, marks, letters))
    decreases n
  {
    if n > 0 {
      KnownRunesLeaveNoScript(word, n - 1, marks, letters);
      var image := RuneImage(word, n - 1, marks, letters);
      assert !ContainsArabicScript(image) by {
        if image == "I" {
          assert !InArabicBlock(image[0]);
        } else if word[n - 1] !in marks && word[n - 1] !in letters {
          assert image == [word[n - 1]];
        }
      }
      ContainsArabicScriptConcat(ConvertPrefix(word, n - 1, marks, letters), image);
    }
  }

  /** Some rune of the word is in the Arabic block but in neither table. */
  predicate HasUnmappedRune(word: string, marks: map<char, string>, letters: map<char, string>) {
    exists i :: 0 <= i < |word| && InArabicBlock(word[i]) && word[i] !in marks && word[i] !in letters
  }

  /** With the transliterator's tables, the heuristics leave Arabic script
      in their output exactly when the word holds an Arabic-script rune no
      table knows (a hamza U+0621, for instance): such runes are kept, all
      others become Latin. */
  lemma HeuristicsScript(word: string, lang: Language)
    ensures ContainsArabicScript(InsertVowels(Convert(word, VowelMarks, LetterMap(lang))))
      <==> HasUnmappedRune(word, VowelMarks, LetterMap(lang))
  {
    HeuristicsScriptWith(word, VowelMarks, LetterMap(lang), lang);
  }

  lemma HeuristicsScriptWith(word: string, marks: map<char, string>, letters: map<char, string>, lang: Language)
    requires marks == VowelMarks && letters == LetterMap(lang)
    ensures ContainsArabicScript(InsertVowels(Convert(word, marks, letters))) <==> HasUnmappedRune(word, marks, letters)
  {
    TablesShape(lang);
    var conv := Convert(word, marks, letters);
    InsertVowelsIsVowelize(conv);
    VowelizeKeepsScript(conv);
    if HasUnmappedRune(word, marks, letters) {
      var i :| 0 <= i < |word| && InArabicBlock(word[i]) && word[i] !in marks && word[i] !in letters;
      UnmappedRuneKept(word, i, |word|, marks, letters);
    } else {
      KnownRunesLeaveNoScript(word, |word|, marks, letters);
    }
  }

  /** Every key of the Arabic letter map lies above hamza U+0621. */
  lemma ArabicKeysAboveHamza()
    ensures forall c :: c in ArabicLetters ==> c > '\U{0621}'
  {
  }

  lemma NotInMerge(x: char, a: map<char, string>, b: map<char, string>, c: map<char, string>)
    requires x !in a && x !in b && x !in c
    ensures x !in a + b + c
  {
  }

  /** Hamza U+0621 is in the Arabic block but in neither letter map. */
  lemma HamzaIsUnmapped(lang: Language)
    ensures InArabicBlock('\U{0621}') && '\U{0621}' !in VowelMarks && '\U{0621}' !in LetterMap(lang)
  {
    HamzaIsNoVowelMark();
    HamzaIsNoLetter(lang);
  }

  lemma HamzaIsNoVowelMark()
    ensures '\U{0621}' !in VowelMarks
  {
    VowelMarksAreDiacritics();
    assert !IsDiacritic('\U{0621}');
  }

  lemma HamzaIsNoLetter(lang: Language)
    ensures '\U{0621}' !in LetterMap(lang)
  {
    var hamza := '\U{0621}';
    ArabicKeysAboveHamza();
    if lang == Persian {
      HamzaIsNoPersianLetter();
      NotInMerge(hamza, ArabicLetters, PersianAdditions, PersianOverrides);
    }
  }

  lemma HamzaIsNoPersianLetter()
    ensures '\U{0621}' !in PersianAdditions && '\U{0621}' !in PersianOverrides
  {
  }
}
