/** The letter and vowel-mark tables of `initializeLetterMappings`
    (transliterator.go:157-201). */
module Tables {
  import opened Script
  import opened Diacritics

  /** The Arabic letter map (transliterator.go:159-169). */
  const ArabicLetters: map<char, string> := map[
    '\U{0627}' := "á",   // alef
    '\U{0623}' := "a",   // alef with hamza above
    '\U{0625}' := "i",   // alef with hamza below
    '\U{0622}' := "á",   // alef with madda
    '\U{0628}' := "b",   // be
    '\U{062A}' := "t",   // te
    '\U{062B}' := "th",  // the
    '\U{062C}' := "j",   // jim
    '\U{062D}' := "ḥ",   // he (hah)
    '\U{062E}' := "kh",  // khe
    '\U{062F}' := "d",   // dal
    '\U{0630}' := "dh",  // dhal
    '\U{0631}' := "r",   // re
    '\U{0632}' := "z",   // ze
    '\U{0633}' := "s",   // sin
    '\U{0634}' := "sh",  // shin
    '\U{0635}' := "ṣ",   // sad
    '\U{0636}' := "ḍ",   // dad
    '\U{0637}' := "ṭ",   // ta
    '\U{0638}' := "ẓ",   // za
    '\U{0639}' := "'",   // ain
    '\U{063A}' := "gh",  // ghain
    '\U{0641}' := "f",   // fe
    '\U{0642}' := "q",   // qaf
    '\U{0643}' := "k",   // kaf
    '\U{06A9}' := "k",   // keheh (Persian kaf)
    '\U{0644}' := "l",   // lam
    '\U{0645}' := "m",   // mim
    '\U{0646}' := "n",   // nun
    '\U{0647}' := "h",   // he
    '\U{0648}' := "w",   // waw
    '\U{064A}' := "y",   // ye
    '\U{0649}' := "á",   // alef maksura
    '\U{0626}' := "'",   // ye with hamza
    '\U{0624}' := "'",   // waw with hamza
    '\U{0629}' := "h"    // te marbuta
  ]

  /** The Persian-only letters added to the copy (transliterator.go:178-181). */
  const PersianAdditions: map<char, string> := map[
    '\U{067E}' := "p",   // pe
    '\U{0686}' := "ch",  // che
    '\U{0698}' := "zh",  // zhe
    '\U{06AF}' := "g"    // gaf
  ]

  /** The Persian pronunciations written over the copy (transliterator.go:184-193);
      Farsi ye U+06CC is not in the Arabic map, so it is added here. */
  const PersianOverrides: map<char, string> := map[
    '\U{062B}' := "s",   // the
    '\U{062D}' := "h",   // he (hah)
    '\U{0630}' := "z",   // dhal
    '\U{0635}' := "s",   // sad
    '\U{0636}' := "z",   // dad
    '\U{0637}' := "t",   // ta
    '\U{0638}' := "z",   // za
    '\U{0648}' := "v",   // waw
    '\U{06CC}' := "í",   // Farsi ye
    '\U{064A}' := "í"    // ye
  ]

  /** The Persian letter map: a copy of the Arabic map, then the additions,
      then the overrides. */
  const PersianLetters: map<char, string> := ArabicLetters + PersianAdditions + PersianOverrides

  /** The vowel-mark map (transliterator.go:196-200); sukun and shadda
      produce nothing. */
  const VowelMarks: map<char, string> := map[
    '\U{064E}' := "a",   // fatha
    '\U{0650}' := "i",   // kasra
    '\U{064F}' := "u",   // damma
    '\U{0652}' := "",    // sukun
    '\U{064B}' := "an",  // fathatan
    '\U{064D}' := "in",  // kasratan
    '\U{064C}' := "un",  // dammatan
    '\U{0651}' := "",    // shadda
    '\U{0670}' := "á"    // superscript alef
  ]

  /** The runes the Persian map adds to the Arabic one. */
  const PersianNewLetters: set<char> := {'\U{067E}', '\U{0686}', '\U{0698}', '\U{06AF}', '\U{06CC}'}

  /** A map update keeps the old value of every key the update leaves
      alone and takes the new value of every key it names. */
  lemma MergeLookup<K, V>(a: map<K, V>, b: map<K, V>)
    ensures (a + b).Keys == a.Keys + b.Keys
    ensures forall c :: c in a && c !in b ==> (a + b)[c] == a[c]
    ensures forall c :: c in b ==> (a + b)[c] == b[c]
  {
  }

  lemma AdditionsAreNew()
    ensures PersianAdditions.Keys !! ArabicLetters.Keys
  {
    ArabicKeysBelowPe();
  }

  /** Every Arabic letter of the map lies below pe U+067E or is keheh U+06A9. */
  lemma ArabicKeysBelowPe()
    ensures forall c :: c in ArabicLetters ==> c < '\U{067E}' || c == '\U{06A9}'
  {
  }

  lemma AdditionsAreNotOverridden()
    ensures PersianAdditions.Keys !! PersianOverrides.Keys
  {
  }

  lemma NewLetterKeys()
    ensures PersianOverrides.Keys - ArabicLetters.Keys == {'\U{06CC}'}
    ensures PersianAdditions.Keys + {'\U{06CC}'} == PersianNewLetters
  {
    ArabicKeysBelowPe();
    assert forall c :: c in PersianOverrides && c != '\U{06CC}' ==> c in ArabicLetters;
    assert '\U{06CC}' in PersianOverrides && '\U{06CC}' !in ArabicLetters;
    forall c
      ensures c in PersianOverrides.Keys - ArabicLetters.Keys <==> c == '\U{06CC}'
    {
    }
  }

  lemma KeyAlgebra(a: set<char>, add: set<char>, o: set<char>, y: char, added: set<char>)
    requires o - a == {y} && added == add + {y}
    ensures a + add + o == a + added
  {
  }

  /** The Persian map covers the Arabic letters plus pe, che, zhe, gaf and
      Farsi ye. */
  lemma PersianLetterKeys()
    ensures PersianLetters.Keys == ArabicLetters.Keys + PersianNewLetters
  {
    NewLetterKeys();
    MergeLookup(ArabicLetters, PersianAdditions);
    MergeLookup(ArabicLetters + PersianAdditions, PersianOverrides);
    KeyAlgebra(ArabicLetters.Keys, PersianAdditions.Keys, PersianOverrides.Keys, '\U{06CC}', PersianNewLetters);
  }

  /** The Persian map agrees with the Arabic map on every letter it does not
      override, takes the override value on the others, and building it leaves
      the Arabic map as it was: waw is "w" in Arabic and "v" in Persian. */
  lemma PersianExtendsArabic()
    ensures forall c :: c in ArabicLetters && c !in PersianOverrides ==> PersianLetters[c] == ArabicLetters[c]
    ensures forall c :: c in PersianOverrides ==> PersianLetters[c] == PersianOverrides[c]
    ensures forall c :: c in PersianAdditions ==> PersianLetters[c] == PersianAdditions[c]
    ensures ArabicLetters['\U{0648}'] == "w" && PersianLetters['\U{0648}'] == "v"
  {
    AdditionsAreNew();
    AdditionsAreNotOverridden();
    MergeLookup(ArabicLetters, PersianAdditions);
    MergeLookup(ArabicLetters + PersianAdditions, PersianOverrides);
  }

  /** Text with no rune of the Arabic block. */
  predicate ArabicFree(v: string) {
    forall k :: 0 <= k < |v| ==> !InArabicBlock(v[k])
  }

  lemma ArabicKeysInBlock()
    ensures forall c :: c in ArabicLetters ==> InArabicBlock(c)
  {
  }

  lemma ArabicKeysNotDiacritics()
    ensures forall c :: c in ArabicLetters ==> !IsDiacritic(c)
  {
  }

  lemma ArabicValuesFree()
    ensures forall c :: c in ArabicLetters ==> ArabicFree(ArabicLetters[c])
  {
  }

  lemma AdditionsInBlock()
    ensures forall c :: c in PersianAdditions ==> InArabicBlock(c) && !IsDiacritic(c) && ArabicFree(PersianAdditions[c])
  {
  }

  lemma OverridesInBlock()
    ensures forall c :: c in PersianOverrides ==> InArabicBlock(c) && !IsDiacritic(c) && ArabicFree(PersianOverrides[c])
  {
  }

  lemma VowelMarksAreDiacritics()
    ensures forall c :: c in VowelMarks ==> IsDiacritic(c) && ArabicFree(VowelMarks[c])
  {
  }

  /** A table of letters: runes of the Arabic block that are no
      diacritics, sent to text free of the Arabic block. */
  predicate LetterTable(m: map<char, string>) {
    forall c :: c in m ==> InArabicBlock(c) && !IsDiacritic(c) && ArabicFree(m[c])
  }

  /** Merging two letter tables gives a letter table. */
  lemma MergeLetterTables(a: map<char, string>, b: map<char, string>)
    requires LetterTable(a) && LetterTable(b)
    ensures LetterTable(a + b)
  {
    MergeLookup(a, b);
  }

  lemma ArabicLettersTable()
    ensures LetterTable(ArabicLetters)
  {
    ArabicKeysInBlock();
    ArabicKeysNotDiacritics();
    ArabicValuesFree();
  }

  lemma PersianLettersTable()
    ensures LetterTable(PersianLetters)
  {
    ArabicLettersTable();
    AdditionsInBlock();
    OverridesInBlock();
    MergeLetterTables(ArabicLetters, PersianAdditions);
    MergeLetterTables(ArabicLetters + PersianAdditions, PersianOverrides);
  }

  /** Both letter maps and the vowel-mark map send runes of the Arabic block
      to text free of the Arabic block; letters are never diacritics and the
      vowel marks always are, so no rune is both a letter and a vowel mark. */
  lemma TablesAreArabicToLatin(lang: Language)
    ensures forall c :: c in LetterMap(lang) ==> InArabicBlock(c) && !IsDiacritic(c) && c !in VowelMarks
    ensures forall c :: c in LetterMap(lang) ==> !ContainsArabicScript(LetterMap(lang)[c])
    ensures forall c :: c in VowelMarks ==> IsDiacritic(c) && !ContainsArabicScript(VowelMarks[c])
  {
    VowelMarksAreDiacritics();
    if lang == Persian {
      PersianLettersTable();
    } else {
      ArabicLettersTable();
    }
    LetterTableFree(LetterMap(lang), VowelMarks);
  }

  /** The facts of a letter table in the form the transliterator uses. */
  lemma LetterTableFree(m: map<char, string>, marks: map<char, string>)
    requires LetterTable(m) && forall c :: c in marks ==> IsDiacritic(c)
    ensures forall c :: c in m ==> InArabicBlock(c) && !IsDiacritic(c) && c !in marks
    ensures forall c :: c in m ==> !ContainsArabicScript(m[c])
  {
  }

  /** The letter map `transliterateWord` picks for a language. */
  function LetterMap(lang: Language): (m: map<char, string>)
    ensures lang == Arabic ==> m == ArabicLetters
    ensures lang == Persian ==> m == PersianLetters
  {
    if lang == Persian then PersianLetters else ArabicLetters
  }
}
