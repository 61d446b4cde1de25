/** The `Transliterator` object (transliterator.go:61-95, 125-264, 429-448):
    the dictionaries and tables it holds, how `New` fills them, and the
    pipeline `Transliterate` runs over them. */
module Transliteration {
  import opened Text
  import opened Regex
  import opened Script
  import opened Diacritics
  import opened Tables
  import opened Heuristics
  import opened Phrases
  import opened Words
  import opened Formatting
  import opened PostProcess
  import opened Cleanup

  /** `postProcessArabic`, with the given list of patches, or
      `postProcessPersian`, by language. */
  function LanguagePatch(lang: Language, patches: seq<Rule>, text: string): string {
    if lang == Arabic then ApplyRules(text, patches) else PostProcessPersian(text)
  }

  /** Each field resolved on its own. */
  function ResolveAll(words: seq<string>, dict: Dictionary, marks: map<char, string>, letters: map<char, string>): seq<string> {
    seq(|words|, i requires 0 <= i < |words| => WordResult(words[i], dict, marks, letters))
  }

  /** What `Transliterate` computes, stage by stage: formatting, phrases
      (in the given visiting order), one result per field, the single-space
      join, the rule list, the language patch, `finalCleanup` and a last
      `strings.TrimSpace`. The program runs it with `PostProcessors` and
      `ArabicPatches`; with `PostProcessorsIntended` and
      `ArabicPatchesIntended` it is the pipeline its rules were meant to
      give. */
  function Pipeline(text: string, lang: Language, dict: Dictionary, marks: map<char, string>,
                    letters: map<char, string>, rules: seq<Rule>, patches: seq<Rule>, order: seq<string>): string
    requires IsVisitOrder(dict.commonPhrases, order)
  {
    var phrased := ApplyRules(ApplyPhrases(PreserveFormatting(text), dict.commonPhrases, order), LanguageRules(lang));
    var joined := Join(ResolveAll(Fields(phrased), dict, marks, letters), " ");
    TrimSpace(FinalCleanup(LanguagePatch(lang, patches, ApplyRules(joined, rules))))
  }

  // ---------------------------------------------------------------------
  // Properties of the pipeline

  /** Fields that are no placeholder tokens and hold no Arabic script come
      through the word stage unchanged. */
  lemma PlainWordsPassThrough(words: seq<string>, dict: Dictionary, marks: map<char, string>, letters: map<char, string>)
    requires forall i :: 0 <= i < |words| ==> !IsPlaceholderToken(words[i]) && !ContainsArabicScript(words[i])
    ensures ResolveAll(words, dict, marks, letters) == words
  {
    var r := ResolveAll(words, dict, marks, letters);
    forall i | 0 <= i < |words|
      ensures r[i] == words[i]
    {
      PassesThrough(words[i], dict, marks, letters);
    }
  }

  /** No rune of the Arabic block and no "{". */
  predicate PlainRunes(s: string) {
    forall i :: 0 <= i < |s| ==> !InArabicBlock(s[i]) && s[i] != '{'
  }

  lemma PlainField(w: string, s: string)
    requires PlainRunes(s) && RunesFrom(w, s)
    ensures !IsPlaceholderToken(w) && !ContainsArabicScript(w)
  {
    if |w| > 0 {
      assert w[0] in s;
    }
    forall i | 0 <= i < |w|
      ensures !InArabicBlock(w[i])
    {
      assert w[i] in s;
    }
  }

  /** A text that after `preserveFormatting` holds no Arabic script, no "{"
      and no key of the phrase dictionary is only re-spaced and
      post-processed: its fields come through the phrase and word stages
      unchanged, and the last `TrimSpace` changes nothing. */
  lemma PipelineWithoutScript(text: string, lang: Language, dict: Dictionary, marks: map<char, string>,
                              letters: map<char, string>, rules: seq<Rule>, patches: seq<Rule>, order: seq<string>)
    requires IsVisitOrder(dict.commonPhrases, order)
    requires PlainRunes(PreserveFormatting(text))
    requires forall k :: k in dict.commonPhrases ==> !Contains(PreserveFormatting(text), k)
    ensures Pipeline(text, lang, dict, marks, letters, rules, patches, order)
      == FinalCleanup(LanguagePatch(lang, patches, ApplyRules(Join(Fields(PreserveFormatting(text)), " "), rules)))
  {
    var f := PreserveFormatting(text);
    PhrasesAbsentUnchanged(f, lang, dict.commonPhrases, order);
    var words := Fields(f);
    FieldsRunesFrom(f);
    forall i | 0 <= i < |words|
      ensures !IsPlaceholderToken(words[i]) && !ContainsArabicScript(words[i])
    {
      PlainField(words[i], f);
    }
    PlainWordsPassThrough(words, dict, marks, letters);
  }

  /** Every rule leaves the empty text empty. */
  lemma RulesKeepEmpty(rules: seq<Rule>)
    ensures ApplyRules("", rules) == ""
  {
    ApplyRulesUnchanged("", rules);
  }

  /** The empty text is transliterated to the empty text. */
  lemma EmptyTextGivesEmpty(lang: Language, dict: Dictionary, marks: map<char, string>,
                            letters: map<char, string>, rules: seq<Rule>, patches: seq<Rule>, order: seq<string>)
    requires IsVisitOrder(dict.commonPhrases, order)
    ensures Pipeline("", lang, dict, marks, letters, rules, patches, order) == ""
  {
    assert PreserveFormatting("") == "";
    PhrasesKeepEmpty(dict.commonPhrases, order);
    RulesKeepEmpty(LanguageRules(lang));
    assert Fields("") == [];
    RulesKeepEmpty(rules);
    RulesKeepEmpty(patches);
    assert Capitalize("") == "";
  }

  /** `for k, v := range m { c[k] = v }` into a fresh map. */
  method CopyLetters(m: map<char, string>) returns (c: map<char, string>)
    ensures c == m
  {
    c := map[];
    var rest := m.Keys;
    while rest != {}
      invariant rest <= m.Keys
      invariant c.Keys == m.Keys - rest
      invariant forall k :: k in c ==> c[k] == m[k]
      decreases rest
    {
      var k :| k in rest;
      c := c[k := m[k]];
      rest := rest - {k};
    }
  }

  class Transliterator {
    var arabicDict: Dictionary
    var persianDict: Dictionary
    var arabicLetters: map<char, string>
    var persianLetters: map<char, string>
    var vowelMarks: map<char, string>
    var postProcessors: seq<Rule>

    /** The state `New` leaves: the three tables and the rule list as the
        initialisers define them. */
    ghost predicate Valid()
      reads this
    {
      arabicLetters == ArabicLetters && persianLetters == PersianLetters
      && vowelMarks == VowelMarks && postProcessors == PostProcessors
    }

    /** `New`: `loaded` is the pair of dictionaries read from the two JSON
        files, or `None` when either could not be read or parsed, in which
        case the built-in dictionaries are used. */
    constructor (loaded: Option<(Dictionary, Dictionary)>)
      ensures Valid()
      ensures loaded.Some? ==> arabicDict == loaded.value.0 && persianDict == loaded.value.1
      ensures loaded.None? ==> arabicDict == FallbackArabic && persianDict == FallbackPersian
    {
      arabicLetters := map[];
      persianLetters := map[];
      vowelMarks := map[];
      postProcessors := [];
      arabicDict := Dictionary(map[], map[], map[]);
      persianDict := Dictionary(map[], map[], map[]);
      new;
      if loaded.Some? {
        arabicDict := loaded.value.0;
        persianDict := loaded.value.1;
      } else {
        InitializeFallbackMappings();
      }
      InitializeLetterMappings();
      InitializePostProcessors();
    }

    /** `initializeFallbackMappings`: the built-in dictionaries. */
    method InitializeFallbackMappings()
      modifies this
      ensures arabicDict == FallbackArabic && persianDict == FallbackPersian
      ensures arabicLetters == old(arabicLetters) && persianLetters == old(persianLetters)
      ensures vowelMarks == old(vowelMarks) && postProcessors == old(postProcessors)
    {
      arabicDict := FallbackArabic;
      persianDict := FallbackPersian;
    }

    /** `initializeLetterMappings`: the Arabic map, a key-by-key copy of it
        into the Persian map, the four Persian letters and the ten Persian
        pronunciations written over the copy, and the vowel marks. */
    method InitializeLetterMappings()
      modifies this
      ensures arabicLetters == ArabicLetters && persianLetters == PersianLetters && vowelMarks == VowelMarks
      ensures arabicDict == old(arabicDict) && persianDict == old(persianDict)
      ensures postProcessors == old(postProcessors)
    {
      arabicLetters := ArabicLetters;
      persianLetters := CopyLetters(arabicLetters);
      persianLetters := persianLetters + PersianAdditions;
      persianLetters := persianLetters + PersianOverrides;
      vowelMarks := VowelMarks;
    }

    /** `initializePostProcessors`: the fourteen rules appended in order. */
    method InitializePostProcessors()
      modifies this
      ensures postProcessors == old(postProcessors) + PostProcessors
      ensures arabicDict == old(arabicDict) && persianDict == old(persianDict)
      ensures arabicLetters == old(arabicLetters) && persianLetters == old(persianLetters)
      ensures vowelMarks == old(vowelMarks)
    {
      var rules := PostProcessors;
      for i := 0 to |rules|
        invariant postProcessors == old(postProcessors) + rules[..i]
        invariant arabicDict == old(arabicDict) && persianDict == old(persianDict)
        invariant arabicLetters == old(arabicLetters) && persianLetters == old(persianLetters)
        invariant vowelMarks == old(vowelMarks)
      {
        assert rules[..i + 1] == rules[..i] + [rules[i]];
        postProcessors := postProcessors + [rules[i]];
      }
      assert rules[..|rules|] == rules;
    }

    /** The dictionary of a language. */
    function Dict(lang: Language): Dictionary
      reads this
    {
      if lang == Arabic then arabicDict else persianDict
    }

    /** `transliterateWord`: the placeholder test, the script test, the
        lookups by the stripped form and the heuristics, in that order.
        With a dictionary of Latin values, a token keeps Arabic script only
        through a rune no table of the language maps. */
    method TransliterateWord(word: string, lang: Language) returns (r: string)
      requires Valid()
      ensures r == WordResult(word, Dict(lang), VowelMarks, LetterMap(lang))
      ensures !IsPlaceholderToken(word) && LatinValues(Dict(lang)) && ContainsArabicScript(r)
        ==> HasUnmappedRune(word, VowelMarks, LetterMap(lang))
    {
      if IsPlaceholderToken(word) {
        return Unwrap(word);
      }
      WordScript(word, Dict(lang), lang);
      if !ContainsArabicScript(word) {
        return word;
      }
      var dict := Dict(lang);
      var letterMap := if lang == Persian then persianLetters else arabicLetters;
      var clean := RemoveDiacritics(word);
      if clean in dict.commonWords {
        return dict.commonWords[clean];
      }
      if clean in dict.divineNames {
        return dict.divineNames[clean];
      }
      r := ApplyHeuristics(word, vowelMarks, letterMap);
    }

    /** The loop of `Transliterate` that resolves the fields one by one and
        appends each result. */
    method TransliterateWords(words: seq<string>, lang: Language) returns (result: seq<string>)
      requires Valid()
      ensures result == ResolveAll(words, Dict(lang), VowelMarks, LetterMap(lang))
    {
      result := [];
      for i := 0 to |words|
        invariant |result| == i
        invariant forall j :: 0 <= j < i ==> result[j] == WordResult(words[j], Dict(lang), VowelMarks, LetterMap(lang))
      {
        var w := TransliterateWord(words[i], lang);
        result := result + [w];
      }
    }

    /** `postProcess`: the rule list in order, the language patch and
        `finalCleanup`. The result is trimmed, its only spaces are single
        blanks, and no space stands next to an apostrophe. */
    method PostProcess(text: string, lang: Language) returns (r: string)
      requires Valid()
      ensures r == FinalCleanup(LanguagePatch(lang, ArabicPatches, ApplyRules(text, PostProcessors)))
      ensures IsTrimmed(r) && NoDoubleSpace(r) && SpacesAreBlanks(r)
      ensures NoSpaceAfter(r, {'\''}) && NoSpaceBefore(r, {'\''})
    {
      r := ApplyInOrder(text, postProcessors);
      if lang == Arabic {
        r := PostProcessArabic(r);
      } else {
        r := PostProcessPersian(r);
      }
      r := FinalCleanup(r);
    }

    /** `Transliterate`, with the order in which the phrase loop visits the
        keys of the phrase dictionary as a parameter. The result is what
        `Pipeline` describes, and it is trimmed, single-spaced and has no
        space beside an apostrophe. */
    method Transliterate(text: string, lang: Language, order: seq<string>) returns (r: string)
      requires Valid() && IsVisitOrder(Dict(lang).commonPhrases, order)
      ensures r == Pipeline(text, lang, Dict(lang), VowelMarks, LetterMap(lang), PostProcessors, ArabicPatches, order)
      ensures IsTrimmed(r) && NoDoubleSpace(r) && SpacesAreBlanks(r)
      ensures NoSpaceAfter(r, {'\''}) && NoSpaceBefore(r, {'\''})
    {
      var t := PreserveFormatting(text);
      t := HandlePhrases(t, lang, Dict(lang).commonPhrases, order);
      var result := TransliterateWords(Fields(t), lang);
      var output := Join(result, " ");
      output := PostProcess(output, lang);
      r := TrimSpace(output);
    }
  }
}
