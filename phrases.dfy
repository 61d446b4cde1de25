/** `handlePhrases` (transliterator.go:279-305): known phrases are replaced
    by placeholder tokens "{{PHRASE:...}}" that carry their transliteration
    through the word-by-word stage. */
module Phrases {
  import opened Text
  import opened Regex
  import opened LiteralRules
  import opened Script

  const PlaceholderOpen: string := "{{PHRASE:"
  const PlaceholderClose: string := "}}"

  /** The token a phrase is replaced by. */
  function Placeholder(t: string): string {
    PlaceholderOpen + t + PlaceholderClose
  }

  /** `\b` + QuoteMeta(phrase) + `\b`: the phrase taken literally, between
      ASCII word boundaries. */
  function PhrasePattern(phrase: string): Pattern {
    Pattern([Boundary], [phrase], SomeSpaces, [Boundary])
  }

  function PhraseRule(phrase: string, translit: string): Rule
    requires |phrase| > 0
  {
    LiteralRule(PhrasePattern(phrase), Placeholder(translit))
  }

  /** The keys of the phrase dictionary in the order the loop visits them
      (Go leaves the order of a map iteration unspecified): each key once. */
  predicate IsVisitOrder(phrases: map<string, string>, order: seq<string>) {
    (forall i :: 0 <= i < |order| ==> order[i] in phrases)
    && (forall k :: k in phrases ==> k in order)
    && (forall i, j :: 0 <= i < j < |order| ==> order[i] != order[j])
  }

  /** `\b\b`, the pattern of an empty key, matches the empty text at every
      ASCII word boundary. `ReplaceAllString` writes the replacement at each
      such position once (an empty match right after the previous one is
      skipped) and copies the runes in between. */
  function MarkBoundaries(s: string, out: string, p: nat): string
    requires p <= |s|
    decreases |s| - p
  {
    var here := if AtBoundary(s, p) then out else "";
    if p == |s| then here else here + [s[p]] + MarkBoundaries(s, out, p + 1)
  }

  /** One pass of the phrase loop: the key's pattern, replaced throughout
      by the placeholder of its transliteration. */
  function PhraseStep(s: string, phrase: string, translit: string): string {
    if |phrase| == 0 then MarkBoundaries(s, Placeholder(translit), 0)
    else ReplaceAll(s, PhraseRule(phrase, translit))
  }

  /** The dictionary phrases, in visiting order. */
  function ApplyPhrases(s: string, phrases: map<string, string>, order: seq<string>): string
    requires forall i :: 0 <= i < |order| ==> order[i] in phrases
    decreases |order|
  {
    if |order| == 0 then s
    else
      var last := order[|order| - 1];
      PhraseStep(ApplyPhrases(s, phrases, order[..|order| - 1]), last, phrases[last])
  }

  // ---------------------------------------------------------------------
  // The four fixed Arabic phrases (transliterator.go:298-301)

  const Ya: string := "\U{064A}\U{0627}"
  const IlahiVowelled: string := "\U{0625}\U{0650}\U{0644}\U{0647}\U{0650}\U{064A}"
  const Ilahi: string := "\U{0625}\U{0644}\U{0647}\U{064A}"
  const Fi: string := "\U{0641}\U{064A}"
  const Hadha: string := "\U{0647}\U{0630}\U{0627}"
  const AlHin: string := "\U{0627}\U{0644}\U{062D}\U{064A}\U{0646}"
  const Anta: string := "\U{0623}\U{0646}\U{062A}"
  const AlMuhaymin: string := "\U{0627}\U{0644}\U{0645}\U{0647}\U{064A}\U{0645}\U{0646}"
  const AlQayyum: string := "\U{0627}\U{0644}\U{0642}\U{064A}\U{0648}\U{0645}"

  /** `يا\s+إِلهِي`, `يا\s+إلهي`, `في\s+هذا\s+الحين` and
      `أنت\s+المهيمن\s+القيوم`, with their placeholders. */
  const FixedArabicPatterns: seq<Pattern> := [
    Pattern([], [Ya, IlahiVowelled], SomeSpaces, []),
    Pattern([], [Ya, Ilahi], SomeSpaces, []),
    Pattern([], [Fi, Hadha, AlHin], SomeSpaces, []),
    Pattern([], [Anta, AlMuhaymin, AlQayyum], SomeSpaces, [])
  ]

  const FixedArabicOutputs: seq<string> := [
    Placeholder("yá Iláhí,"),
    Placeholder("yá Iláhí,"),
    Placeholder("fí hádhá'l-ḥíni"),
    Placeholder("anta'l-Muhayminu'l-Qayyúm")
  ]

  const FixedArabicRules: seq<Rule> := [
    LiteralRule(FixedArabicPatterns[0], FixedArabicOutputs[0]),
    LiteralRule(FixedArabicPatterns[1], FixedArabicOutputs[1]),
    LiteralRule(FixedArabicPatterns[2], FixedArabicOutputs[2]),
    LiteralRule(FixedArabicPatterns[3], FixedArabicOutputs[3])
  ]

  /** The fixed rules apply to Arabic only. */
  function LanguageRules(lang: Language): seq<Rule> {
    if lang == Arabic then FixedArabicRules else []
  }

  /** `handlePhrases`: the dictionary phrases in visiting order, then, for
      Arabic, the four fixed phrases. */
  method HandlePhrases(text: string, lang: Language, phrases: map<string, string>, order: seq<string>)
    returns (r: string)
    requires IsVisitOrder(phrases, order)
    ensures r == ApplyRules(ApplyPhrases(text, phrases, order), LanguageRules(lang))
  {
    r := text;
    var i := 0;
    while i < |order|
      invariant i <= |order|
      invariant r == ApplyPhrases(text, phrases, order[..i])
    {
      var phrase := order[i];
      assert order[..i + 1][..i] == order[..i];
      r := PhraseStep(r, phrase, phrases[phrase]);
      i := i + 1;
    }
    assert order[..i] == order;
    if lang == Arabic {
      r := ApplyInOrder(r, FixedArabicRules);
    }
  }

  // ---------------------------------------------------------------------
  // Properties

  /** Each phrase rule replaces, from left to right, every occurrence of
      the phrase that starts and ends at an ASCII word boundary. */
  lemma PhraseRuleIsRewrite(s: string, phrase: string, translit: string)
    requires |phrase| > 0
    ensures PhraseStep(s, phrase, translit) == Rewrite(s, PhrasePattern(phrase), Placeholder(translit))
  {
    RuleIsRewrite(s, PhrasePattern(phrase), Placeholder(translit));
  }

  /** A literal rule needs the first of its words. */
  lemma LiteralRuleNeedsFirstWord(pt: Pattern, out: string)
    requires |pt.words| > 0
    ensures NeedsLiteral(LiteralRule(pt, out), pt.words[0])
  {
    assert WordsElems(pt.words, pt.gap)[0] == Lit(pt.words[0]);
    assert Elems(pt)[|pt.lead|] == Lit(pt.words[0]);
  }

  /** A phrase that does not occur in the text leaves it unchanged. */
  lemma AbsentPhraseUnchanged(s: string, phrase: string, translit: string)
    requires |phrase| > 0 && !Contains(s, phrase)
    ensures ReplaceAll(s, PhraseRule(phrase, translit)) == s
  {
    LiteralRuleNeedsFirstWord(PhrasePattern(phrase), Placeholder(translit));
    LiteralAbsentMeansUnchanged(s, PhraseRule(phrase, translit), phrase);
  }

  /** A text in which no key of the phrase dictionary occurs and which holds
      no Arabic script comes out of `handlePhrases` as it went in. (An empty
      key occurs in every text.) */
  lemma PhrasesAbsentUnchanged(s: string, lang: Language, phrases: map<string, string>, order: seq<string>)
    requires IsVisitOrder(phrases, order)
    requires forall k :: k in phrases ==> !Contains(s, k)
    requires !ContainsArabicScript(s)
    ensures ApplyRules(ApplyPhrases(s, phrases, order), LanguageRules(lang)) == s
  {
    DictionaryPhrasesAbsent(s, phrases, order);
    if lang == Arabic {
      FixedPhrasesNeedArabicScript(s);
    }
  }

  lemma {:induction false} DictionaryPhrasesAbsent(s: string, phrases: map<string, string>, order: seq<string>)
    requires forall i :: 0 <= i < |order| ==> order[i] in phrases
    requires forall k :: k in phrases ==> !Contains(s, k)
    ensures ApplyPhrases(s, phrases, order) == s
    decreases |order|
  {
    if |order| > 0 {
      var last := order[|order| - 1];
      DictionaryPhrasesAbsent(s, phrases, order[..|order| - 1]);
      assert !Contains(s, last);
      assert |last| > 0;
      AbsentPhraseUnchanged(s, last, phrases[last]);
    }
  }

  /** No phrase rewrites the empty text. */
  lemma {:induction false} PhrasesKeepEmpty(phrases: map<string, string>, order: seq<string>)
    requires forall i :: 0 <= i < |order| ==> order[i] in phrases
    ensures ApplyPhrases("", phrases, order) == ""
    decreases |order|
  {
    if |order| > 0 {
      PhrasesKeepEmpty(phrases, order[..|order| - 1]);
    }
  }

  /** An empty key changes nothing in a text without an ASCII word rune:
      there is no boundary to mark. */
  lemma {:induction false} MarkBoundariesWithoutWords(s: string, out: string, p: nat)
    requires p <= |s| && forall i :: 0 <= i < |s| ==> !IsWordChar(s[i])
    ensures MarkBoundaries(s, out, p) == s[p..]
    decreases |s| - p
  {
    if p < |s| {
      MarkBoundariesWithoutWords(s, out, p + 1);
      assert s[p..] == [s[p]] + s[p + 1..];
    }
  }

  const TwoWords: string := "ab cd"

  /** An empty key puts its placeholder at both ends of every ASCII word:
      "ab cd" becomes "{{PHRASE:t}}ab{{PHRASE:t}} {{PHRASE:t}}cd{{PHRASE:t}}". */
  lemma EmptyPhraseMarksWords(t: string)
    ensures var m := Placeholder(t);
      PhraseStep(TwoWords, "", t) == m + "ab" + m + " " + m + "cd" + m
  {
    var s, m := TwoWords, Placeholder(t);
    assert MarkBoundaries(s, m, 5) == m;
    assert MarkBoundaries(s, m, 4) == "d" + m;
    assert MarkBoundaries(s, m, 3) == m + "cd" + m;
    assert MarkBoundaries(s, m, 2) == m + " " + m + "cd" + m;
    assert MarkBoundaries(s, m, 1) == "b" + m + " " + m + "cd" + m;
  }

  /** The fixed phrases are Arabic script: a text without Arabic script is
      left as it is by them. */
  lemma FixedPhrasesNeedArabicScript(s: string)
    requires !ContainsArabicScript(s)
    ensures ApplyRules(s, FixedArabicRules) == s
  {
    forall i | 0 <= i < |FixedArabicRules|
      ensures ReplaceAll(s, FixedArabicRules[i]) == s
    {
      var pt := FixedArabicPatterns[i];
      var w := pt.words[0];
      assert InArabicBlock(w[0]);
      NotContainedByMissingChar(s, w, w[0]);
      LiteralRuleNeedsFirstWord(pt, FixedArabicOutputs[i]);
      LiteralAbsentMeansUnchanged(s, FixedArabicRules[i], w);
    }
    ApplyRulesUnchanged(s, FixedArabicRules);
  }
}
