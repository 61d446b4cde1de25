/** The dictionaries and `transliterateWord` (transliterator.go:21-44,
    125-154, 307-348): a token is resolved by the first of five steps that
    applies. */
module Words {
  import opened Text
  import opened Script
  import opened Diacritics
  import opened Tables
  import opened Vowels
  import opened Heuristics
  import opened Phrases

  /** The parts of a dictionary the transliterator reads, each a map from
      an entry's (diacritic-free) key to its transliteration. */
  datatype Dictionary = Dictionary(
    commonWords: map<string, string>,
    divineNames: map<string, string>,
    commonPhrases: map<string, string>)

  /** The built-in Arabic dictionary used when the files cannot be loaded
      (transliterator.go:127-141): Allah, ya and Ilahi. */
  const FallbackArabic: Dictionary := Dictionary(
    map[
      "\U{0627}\U{0644}\U{0644}\U{0647}" := "Alláh",
      "\U{064A}\U{0627}" := "yá",
      "\U{0625}\U{0644}\U{0647}\U{064A}" := "Iláhí"
    ],
    map[], map[])

  /** The built-in Persian dictionary (transliterator.go:143-153): khuda,
      az and bih. */
  const FallbackPersian: Dictionary := Dictionary(
    map[
      "\U{062E}\U{062F}\U{0627}" := "Khudá",
      "\U{0627}\U{0632}" := "az",
      "\U{0628}\U{0647}" := "bih"
    ],
    map[], map[])

  /** A token that starts with "{{PHRASE:" and ends with "}}". */
  predicate IsPlaceholderToken(word: string) {
    PlaceholderOpen <= word && HasSuffix(word, PlaceholderClose)
  }

  /** `TrimSuffix(TrimPrefix(word, "{{PHRASE:"), "}}")` on such a token:
      the markers cannot overlap, so this is the text between them. */
  function Unwrap(word: string): (inner: string)
    requires IsPlaceholderToken(word)
    ensures |word| >= |PlaceholderOpen| + |PlaceholderClose|
    ensures word == PlaceholderOpen + inner + PlaceholderClose
  {
    assert word[|word| - 2..] == "}}";
    assert word[|word| - 2] == '}';
    assert forall i :: 0 <= i < 9 ==> word[i] == PlaceholderOpen[i] && PlaceholderOpen[i] != '}';
    var inner := word[|PlaceholderOpen|..|word| - |PlaceholderClose|];
    assert word == word[..9] + inner + word[|word| - 2..];
    inner
  }

  /** `transliterateWord` with the dictionary and tables of the language:
      a placeholder token gives its text, a token without Arabic script
      itself, then the common words and the divine names are looked up by
      the stripped form, and anything else goes through the heuristics. */
  function WordResult(word: string, dict: Dictionary, marks: map<char, string>, letters: map<char, string>): string {
    if IsPlaceholderToken(word) then Unwrap(word)
    else if !ContainsArabicScript(word) then word
    else
      var clean := StripDiacritics(word);
      if clean in dict.commonWords then dict.commonWords[clean]
      else if clean in dict.divineNames then dict.divineNames[clean]
      else InsertVowels(Convert(word, marks, letters))
  }

  // ---------------------------------------------------------------------
  // The resolution order

  /** A placeholder made by `handlePhrases` gives back exactly its
      transliteration. */
  lemma PlaceholderRoundTrip(t: string, dict: Dictionary, marks: map<char, string>, letters: map<char, string>)
    ensures IsPlaceholderToken(Placeholder(t))
    ensures WordResult(Placeholder(t), dict, marks, letters) == t
  {
    var w := Placeholder(t);
    assert w[|w| - 2..] == PlaceholderClose;
  }

  /** A dictionary whose values hold no Arabic script. */
  predicate LatinValues(dict: Dictionary) {
    (forall k :: k in dict.commonWords ==> !ContainsArabicScript(dict.commonWords[k]))
    && (forall k :: k in dict.divineNames ==> !ContainsArabicScript(dict.divineNames[k]))
  }

  /** With the transliterator's tables and a dictionary of Latin values, a
      token that is no placeholder keeps Arabic script only when it holds an
      Arabic-script rune no table knows, and always keeps it when it holds
      one and its stripped form is in neither part of the dictionary. */
  lemma WordScript(word: string, dict: Dictionary, lang: Language)
    requires !IsPlaceholderToken(word)
    ensures LatinValues(dict) && ContainsArabicScript(WordResult(word, dict, VowelMarks, LetterMap(lang)))
      ==> HasUnmappedRune(word, VowelMarks, LetterMap(lang))
    ensures HasUnmappedRune(word, VowelMarks, LetterMap(lang))
      && StripDiacritics(word) !in dict.commonWords && StripDiacritics(word) !in dict.divineNames
      ==> ContainsArabicScript(WordResult(word, dict, VowelMarks, LetterMap(lang)))
  {
    HeuristicsScript(word, lang);
    if HasUnmappedRune(word, VowelMarks, LetterMap(lang)) {
      var i :| 0 <= i < |word| && InArabicBlock(word[i]) && word[i] !in VowelMarks && word[i] !in LetterMap(lang);
      assert ContainsArabicScript(word);
    }
  }

  /** Two Arabic-script tokens that strip to the same form and hit the
      dictionary come out alike: diacritics do not matter to a lookup. */
  lemma SameStrippedFormSameEntry(w1: string, w2: string, dict: Dictionary, marks: map<char, string>, letters: map<char, string>)
    requires !IsPlaceholderToken(w1) && !IsPlaceholderToken(w2)
    requires ContainsArabicScript(w1) && ContainsArabicScript(w2)
    requires StripDiacritics(w1) == StripDiacritics(w2)
    requires StripDiacritics(w1) in dict.commonWords || StripDiacritics(w1) in dict.divineNames
    ensures WordResult(w1, dict, marks, letters) == WordResult(w2, dict, marks, letters)
  {
  }

  /** A common word wins over a divine name with the same key. */
  lemma CommonWordsFirst(word: string, dict: Dictionary, marks: map<char, string>, letters: map<char, string>)
    requires !IsPlaceholderToken(word) && ContainsArabicScript(word)
    requires StripDiacritics(word) in dict.commonWords && StripDiacritics(word) in dict.divineNames
    ensures WordResult(word, dict, marks, letters) == dict.commonWords[StripDiacritics(word)]
  {
  }

  // ---------------------------------------------------------------------
  // Tokens of a multi-word placeholder

  /** A piece that begins with the opening marker but lacks the closing
      one, and holds no Arabic script, comes through as it is. */
  lemma OpeningPiecePassesThrough(t: string, dict: Dictionary, marks: map<char, string>, letters: map<char, string>)
    requires !HasSuffix(PlaceholderOpen + t, PlaceholderClose) && !ContainsArabicScript(t)
    ensures WordResult(PlaceholderOpen + t, dict, marks, letters) == PlaceholderOpen + t
  {
    OpeningPieceIsPlain(t);
    PassesThrough(PlaceholderOpen + t, dict, marks, letters);
  }

  lemma OpeningPieceIsPlain(t: string)
    requires !HasSuffix(PlaceholderOpen + t, PlaceholderClose) && !ContainsArabicScript(t)
    ensures !IsPlaceholderToken(PlaceholderOpen + t) && !ContainsArabicScript(PlaceholderOpen + t)
  {
    ContainsArabicScriptConcat(PlaceholderOpen, t);
  }

  /** A piece that ends with the closing marker but lacks the opening one,
      and holds no Arabic script, comes through as it is. */
  lemma ClosingPiecePassesThrough(t: string, dict: Dictionary, marks: map<char, string>, letters: map<char, string>)
    requires !(PlaceholderOpen <= t + PlaceholderClose) && !ContainsArabicScript(t)
    ensures WordResult(t + PlaceholderClose, dict, marks, letters) == t + PlaceholderClose
  {
    ClosingPieceIsPlain(t);
    PassesThrough(t + PlaceholderClose, dict, marks, letters);
  }

  lemma ClosingPieceIsPlain(t: string)
    requires !(PlaceholderOpen <= t + PlaceholderClose) && !ContainsArabicScript(t)
    ensures !IsPlaceholderToken(t + PlaceholderClose) && !ContainsArabicScript(t + PlaceholderClose)
  {
    ContainsArabicScriptConcat(t, PlaceholderClose);
  }

  /** A token that is no placeholder and holds no Arabic script comes
      through as it is, whatever the dictionary and the tables. */
  lemma PassesThrough(word: string, dict: Dictionary, marks: map<char, string>, letters: map<char, string>)
    requires !IsPlaceholderToken(word) && !ContainsArabicScript(word)
    ensures WordResult(word, dict, marks, letters) == word
  {
  }

  /** `strings.Fields` cuts the placeholder of "yá Iláhí," in two at its
      blank, and neither piece is a placeholder token or holds Arabic
      script: both come through with their braces. */
  lemma SplitPlaceholderPiecesPassThrough(dict: Dictionary, marks: map<char, string>, letters: map<char, string>)
    ensures Placeholder("yá Iláhí,") == (PlaceholderOpen + "yá") + " " + ("Iláhí," + PlaceholderClose)
    ensures WordResult(PlaceholderOpen + "yá", dict, marks, letters) == PlaceholderOpen + "yá"
    ensures WordResult("Iláhí," + PlaceholderClose, dict, marks, letters) == "Iláhí," + PlaceholderClose
  {
    SplitPlaceholderPieces();
    OpeningPiecePassesThrough("yá", dict, marks, letters);
    ClosingPiecePassesThrough("Iláhí,", dict, marks, letters);
  }

  lemma SplitPlaceholderPieces()
    ensures Placeholder("yá Iláhí,") == (PlaceholderOpen + "yá") + " " + ("Iláhí," + PlaceholderClose)
    ensures !HasSuffix(PlaceholderOpen + "yá", PlaceholderClose) && !ContainsArabicScript("yá")
    ensures !(PlaceholderOpen <= "Iláhí," + PlaceholderClose) && !ContainsArabicScript("Iláhí,")
  {
    var a, b := "yá", "Iláhí,";
    assert (PlaceholderOpen + a)[|PlaceholderOpen + a| - 1] == 'á';
    assert !InArabicBlock(a[0]) && !InArabicBlock(a[1]);
    assert (b + PlaceholderClose)[0] == 'I';
    assert forall i :: 0 <= i < |b| ==> !InArabicBlock(b[i]);
  }

  // ---------------------------------------------------------------------
  // The built-in dictionaries

  /** With the built-in Arabic dictionary, Allah comes out "Alláh" with or
      without a shadda on its second lam. */
  lemma FallbackAllah(marks: map<char, string>, letters: map<char, string>)
    ensures WordResult(Allah, FallbackArabic, marks, letters) == "Alláh"
    ensures WordResult("\U{0627}\U{0644}\U{0644}\U{0651}\U{0647}", FallbackArabic, marks, letters) == "Alláh"
  {
    var marked := "\U{0627}\U{0644}\U{0644}\U{0651}\U{0647}";
    AllahIsDictionaryWord(Allah);
    AllahStrips();
    AllahIsDictionaryWord(marked);
    AllahWithShaddaStrips();
  }

  /** An Arabic-script token that is no placeholder is looked up. */
  lemma AllahIsDictionaryWord(w: string)
    requires |w| > 0 && w[0] == Alif
    ensures !IsPlaceholderToken(w) && ContainsArabicScript(w)
  {
    assert InArabicBlock(w[0]);
    assert PlaceholderOpen[0] != w[0];
  }

  lemma AllahStrips()
    ensures StripDiacritics(Allah) == Allah
  {
    assert forall i :: 0 <= i < |Allah| ==> !IsDiacritic(Allah[i]);
    StripDiacriticsUnchanged(Allah);
  }

  lemma AllahWithShaddaStrips()
    ensures StripDiacritics("\U{0627}\U{0644}\U{0644}\U{0651}\U{0647}") == Allah
  {
    var marked := "\U{0627}\U{0644}\U{0644}\U{0651}\U{0647}";
    assert marked == "\U{0627}\U{0644}\U{0644}" + ['\U{0651}'] + "\U{0647}";
    StripDiacriticsSkipsMark("\U{0627}\U{0644}\U{0644}", '\U{0651}', "\U{0647}");
    assert "\U{0627}\U{0644}\U{0644}" + "\U{0647}" == Allah;
  }

  /** With the built-in Persian dictionary, khuda comes out "Khudá". */
  lemma FallbackKhuda(marks: map<char, string>, letters: map<char, string>)
    ensures WordResult("\U{062E}\U{062F}\U{0627}", FallbackPersian, marks, letters) == "Khudá"
  {
    var w := "\U{062E}\U{062F}\U{0627}";
    assert InArabicBlock(w[0]);
    assert !(PlaceholderOpen <= w);
    StripDiacriticsUnchanged(w);
  }

  // ---------------------------------------------------------------------
  // A second pass

  /** Be, te, dal and the Arabic question mark U+061F, a rune of the
      Arabic block that no table maps. */
  const BtdQuestion: string := "\U{0628}\U{062A}\U{062F}\U{061F}"

  /** The word stage is not idempotent: the question mark keeps the first
      result in Arabic script, so a second pass sends it through the
      heuristics again, and vowel insertion finds the pair "td" that the
      first pass left. */
  lemma WordStageNotIdempotent()
    ensures WordResult(BtdQuestion, FallbackArabic, VowelMarks, ArabicLetters) == "batd\U{061F}"
    ensures WordResult("batd\U{061F}", FallbackArabic, VowelMarks, ArabicLetters) == "batad\U{061F}"
  {
    FirstPass();
    SecondPass();
  }

  lemma FirstPass()
    ensures WordResult(BtdQuestion, FallbackArabic, VowelMarks, ArabicLetters) == "batd\U{061F}"
  {
    var w := BtdQuestion;
    assert InArabicBlock(w[0]) && !(PlaceholderOpen <= w);
    StripDiacriticsUnchanged(w);
    assert w !in FallbackArabic.commonWords by {
      assert w != "\U{0627}\U{0644}\U{0644}\U{0647}" && w != "\U{064A}\U{0627}" && w != "\U{0625}\U{0644}\U{0647}\U{064A}";
    }
    HeuristicsBranch(w, FallbackArabic, VowelMarks, ArabicLetters);
    BtdConverts();
    BtdVowelized();
  }

  /** A token with Arabic script whose stripped form the dictionary lacks
      goes through the heuristics. */
  lemma HeuristicsBranch(w: string, dict: Dictionary, marks: map<char, string>, letters: map<char, string>)
    requires !IsPlaceholderToken(w) && ContainsArabicScript(w)
    requires StripDiacritics(w) !in dict.commonWords && StripDiacritics(w) !in dict.divineNames
    ensures WordResult(w, dict, marks, letters) == InsertVowels(Convert(w, marks, letters))
  {
  }

  lemma BtdVowelized()
    ensures InsertVowels("btd\U{061F}") == "batd\U{061F}"
  {
    InsertVowelsIsVowelize("btd\U{061F}");
    BtdVowelize();
  }

  lemma BtdVowelize()
    ensures Vowelize("btd\U{061F}") == "batd\U{061F}"
  {
    var q := "\U{061F}";
    assert Vowelize(q) == q;
    assert !PairAtHead("d" + q);
    assert Vowelize("d" + q) == "d" + q;
    assert PairAtHead("btd" + q);
    assert ("btd" + q)[2..] == "d" + q;
  }

  lemma BtdConverts()
    ensures Convert(BtdQuestion, VowelMarks, ArabicLetters) == "btd\U{061F}"
  {
    VowelMarksAreDiacritics();
    BtdLetters();
    BtdConvertsWith(VowelMarks, ArabicLetters);
  }

  /** `BtdQuestion` converts rune by rune under any tables with its three
      letters and without its marks. */
  lemma BtdConvertsWith(m: map<char, string>, l: map<char, string>)
    requires forall i :: 0 <= i < 4 ==> BtdQuestion[i] !in m
    requires '\U{0628}' in l && l['\U{0628}'] == "b" && '\U{062A}' in l && l['\U{062A}'] == "t"
    requires '\U{062F}' in l && l['\U{062F}'] == "d" && '\U{061F}' !in l
    ensures Convert(BtdQuestion, m, l) == "btd\U{061F}"
  {
    var w := BtdQuestion;
    assert w[0] == '\U{0628}' && w[1] == '\U{062A}' && w[2] == '\U{062F}' && w[3] == '\U{061F}';
    PrefixStep(w, 0, m, l, "", "b");
    PrefixStep(w, 1, m, l, "b", "t");
    PrefixStep(w, 2, m, l, "bt", "d");
    PrefixStep(w, 3, m, l, "btd", "\U{061F}");
  }

  /** The letter-table entries and the unmapped question mark of `BtdQuestion`. */
  lemma BtdLetters()
    ensures '\U{0628}' in ArabicLetters && ArabicLetters['\U{0628}'] == "b"
    ensures '\U{062A}' in ArabicLetters && ArabicLetters['\U{062A}'] == "t"
    ensures '\U{062F}' in ArabicLetters && ArabicLetters['\U{062F}'] == "d"
    ensures '\U{061F}' !in ArabicLetters
  {
  }

  /** One more rune of the word, with its image. */
  lemma PrefixStep(w: string, n: nat, m: map<char, string>, l: map<char, string>, p: string, img: string)
    requires n < |w| && ConvertPrefix(w, n, m, l) == p && RuneImage(w, n, m, l) == img
    ensures ConvertPrefix(w, n + 1, m, l) == p + img
  {
  }

  lemma SecondPass()
    ensures WordResult("batd\U{061F}", FallbackArabic, VowelMarks, ArabicLetters) == "batad\U{061F}"
  {
    var w := "batd\U{061F}";
    assert InArabicBlock(w[4]) && !(PlaceholderOpen <= w);
    StripDiacriticsUnchanged(w);
    assert w !in FallbackArabic.commonWords by {
      assert |w| == 5;
    }
    HeuristicsBranch(w, FallbackArabic, VowelMarks, ArabicLetters);
    LatinConverts();
    LatinVowelized();
  }

  lemma LatinVowelized()
    ensures InsertVowels("batd\U{061F}") == "batad\U{061F}"
  {
    InsertVowelsIsVowelize("batd\U{061F}");
    LatinVowelize();
  }

  lemma LatinVowelize()
    ensures Vowelize("batd\U{061F}") == "batad\U{061F}"
  {
    var q := "\U{061F}";
    assert Vowelize(q) == q;
    assert PairAtHead("td" + q);
    assert ("td" + q)[2..] == q;
    assert Vowelize("td" + q) == "tad" + q;
    assert !PairAtHead("atd" + q) && ("atd" + q)[1..] == "td" + q;
    assert !PairAtHead("batd" + q) && ("batd" + q)[1..] == "atd" + q;
  }

  lemma LatinConverts()
    ensures Convert("batd\U{061F}", VowelMarks, ArabicLetters) == "batd\U{061F}"
  {
    VowelMarksAreDiacritics();
    ArabicKeysInBlock();
    assert '\U{061F}' !in VowelMarks && '\U{061F}' !in ArabicLetters;
    LatinConvertsWith(VowelMarks, ArabicLetters);
  }

  /** Runes that neither table maps are copied. */
  lemma LatinConvertsWith(m: map<char, string>, l: map<char, string>)
    requires 'b' !in m && 'a' !in m && 't' !in m && 'd' !in m && '\U{061F}' !in m
    requires 'b' !in l && 'a' !in l && 't' !in l && 'd' !in l && '\U{061F}' !in l
    ensures Convert("batd\U{061F}", m, l) == "batd\U{061F}"
  {
    var w := "batd\U{061F}";
    assert w[0] == 'b' && w[1] == 'a' && w[2] == 't' && w[3] == 'd' && w[4] == '\U{061F}';
    PrefixStep(w, 0, m, l, "", "b");
    PrefixStep(w, 1, m, l, "b", "a");
    PrefixStep(w, 2, m, l, "ba", "t");
    PrefixStep(w, 3, m, l, "bat", "d");
    PrefixStep(w, 4, m, l, "batd", "\U{061F}");
  }
}
