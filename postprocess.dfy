/** The post-processing rules of the transliterator
    (transliterator.go:204-240, 429-470): fourteen `ReplaceAllString` rules
    applied in list order, then the Arabic or Persian patches. */
module PostProcess {
  import opened Text
  import opened Regex
  import opened Spacing
  import opened LiteralRules

  // ---------------------------------------------------------------------
  // The rules

  /** `\bw\s+al-`: a particle, spaces, and the article. */
  function ArticlePattern(w: string): Pattern {
    Pattern([Boundary], [w, "al-"], SomeSpaces, [])
  }

  /** The same with `\B` in front: the particle is not preceded by an ASCII
      word rune. */
  function ArticlePatternNonBoundary(w: string): Pattern {
    Pattern([NonBoundary], [w, "al-"], SomeSpaces, [])
  }

  /** `\bmí\s+`: the Persian present-tense prefix and the spaces after it. */
  const PresentTensePattern: Pattern := Pattern([Boundary], ["mí"], SomeSpaces, [Spaces1])

  /** The zero-width non-joiner U+200C, the Persian ezafe connector. */
  const Zwnj: char := '\U{200C}'

  const EzafePattern: Pattern := Pattern([], [[Zwnj]], SomeSpaces, [])

  /** The nine article contractions and the two Persian rules
      (transliterator.go:211-223), as written: `'alá` and `'an` carry `\b`. */
  const LiteralProcessors: seq<Rule> := [
    LiteralRule(ArticlePattern("wa"), "wa'l-"),
    LiteralRule(ArticlePattern("bi"), "bi'l-"),
    LiteralRule(ArticlePattern("fí"), "fí'l-"),
    LiteralRule(ArticlePattern("ka"), "ka'l-"),
    LiteralRule(ArticlePattern("li"), "li'l-"),
    LiteralRule(ArticlePattern("min"), "mina'l-"),
    LiteralRule(ArticlePattern("ilá"), "ilá'l-"),
    LiteralRule(ArticlePattern("'alá"), "'alá'l-"),
    LiteralRule(ArticlePattern("'an"), "'ani'l-"),
    LiteralRule(PresentTensePattern, "mí-"),
    LiteralRule(EzafePattern, "-")
  ]

  /** The same rules with `\B` in front of `'alá` and `'an`, so that they
      apply to the particle as a word of its own: the intended rules. */
  const LiteralProcessorsIntended: seq<Rule> := [
    LiteralRule(ArticlePattern("wa"), "wa'l-"),
    LiteralRule(ArticlePattern("bi"), "bi'l-"),
    LiteralRule(ArticlePattern("fí"), "fí'l-"),
    LiteralRule(ArticlePattern("ka"), "ka'l-"),
    LiteralRule(ArticlePattern("li"), "li'l-"),
    LiteralRule(ArticlePattern("min"), "mina'l-"),
    LiteralRule(ArticlePattern("ilá"), "ilá'l-"),
    LiteralRule(ArticlePatternNonBoundary("'alá"), "'alá'l-"),
    LiteralRule(ArticlePatternNonBoundary("'an"), "'ani'l-"),
    LiteralRule(PresentTensePattern, "mí-"),
    LiteralRule(EzafePattern, "-")
  ]

  /** Spacing and punctuation (transliterator.go:226-230). */
  const SpacingProcessors: seq<Rule> := [CollapseSpaces, TightHyphens, NoSpaceBeforePunctuation]

  /** The rule list the transliterator holds. */
  const PostProcessors: seq<Rule> := LiteralProcessors + SpacingProcessors

  /** The rule list with the intended `'alá` and `'an` rules. */
  const PostProcessorsIntended: seq<Rule> := LiteralProcessorsIntended + SpacingProcessors

  // ---------------------------------------------------------------------
  // Language-specific patches

  /** `\banta\s+al-` and the divine-name patches of `postProcessArabic`
      (transliterator.go:451-462), as written: `al-mu'ṭí` ends in `\b`. */
  const AntaPattern: Pattern := Pattern([Boundary], ["anta", "al-"], SomeSpaces, [])
  const MutiAlimHakimPattern: Pattern :=
    Pattern([Boundary], ["anta'l-Mu'ṭí", "al-'Alím", "al-Ḥakím"], SomeSpaces, [])
  const MutiPatternAsWritten: Pattern := Pattern([Boundary], ["al-mu'ṭí"], SomeSpaces, [Boundary])
  const MutiPattern: Pattern := Pattern([Boundary], ["al-mu'ṭí"], SomeSpaces, [NonBoundary])
  const AlimPattern: Pattern := Pattern([Boundary], ["al-'alím"], SomeSpaces, [Boundary])
  const HakimPattern: Pattern := Pattern([Boundary], ["al-ḥakím"], SomeSpaces, [Boundary])

  const ArabicPatches: seq<Rule> := [
    LiteralRule(AntaPattern, "anta'l-"),
    LiteralRule(MutiAlimHakimPattern, "anta'l-Mu'ṭí'l-'Alímu'l-Ḥakím"),
    LiteralRule(MutiPatternAsWritten, "al-Mu'ṭí"),
    LiteralRule(AlimPattern, "al-'Alím"),
    LiteralRule(HakimPattern, "al-Ḥakím")
  ]

  /** The same patches with `\B` after `al-mu'ṭí`, whose last rune is not an
      ASCII word rune: the intended patches. */
  const ArabicPatchesIntended: seq<Rule> := [
    LiteralRule(AntaPattern, "anta'l-"),
    LiteralRule(MutiAlimHakimPattern, "anta'l-Mu'ṭí'l-'Alímu'l-Ḥakím"),
    LiteralRule(MutiPattern, "al-Mu'ṭí"),
    LiteralRule(AlimPattern, "al-'Alím"),
    LiteralRule(HakimPattern, "al-Ḥakím")
  ]

  function PostProcessArabic(text: string): string {
    ApplyRules(text, ArabicPatches)
  }

  /** `\btú'í\b` -> "tú'í" (transliterator.go:465-470). */
  const TuiPattern: Pattern := Pattern([Boundary], ["tú'í"], SomeSpaces, [Boundary])

  function PostProcessPersian(text: string): string {
    ReplaceAll(text, LiteralRule(TuiPattern, "tú'í"))
  }

  /** After the fourteen rules, as written or as intended, spaces are single
      blanks, no space touches a hyphen and no space precedes `,.!?;:`. */
  lemma PostProcessorsSpacing(text: string, rules: seq<Rule>)
    requires rules == PostProcessors || rules == PostProcessorsIntended
    ensures var r := ApplyRules(text, rules);
      NoDoubleSpace(r) && SpacesAreBlanks(r)
      && NoSpaceBefore(r, {'-'}) && NoSpaceAfter(r, {'-'})
      && NoSpaceBefore(r, Punctuation)
  {
    var literal := if rules == PostProcessors then LiteralProcessors else LiteralProcessorsIntended;
    assert rules == literal + SpacingProcessors;
    var t11 := ApplyRules(text, literal);
    ApplyRulesAppend(text, literal, SpacingProcessors);
    ApplyThreeRules(t11, CollapseSpaces, TightHyphens, NoSpaceBeforePunctuation);
    SpacingRules(t11);
  }

  /** `\s+` -> " ", then `\s*-\s*` -> "-", then `\s+([,.!?;:])` -> "$1". */
  lemma SpacingRules(t: string)
    ensures var r := ReplaceAll(ReplaceAll(ReplaceAll(t, CollapseSpaces), TightHyphens), NoSpaceBeforePunctuation);
      NoDoubleSpace(r) && SpacesAreBlanks(r)
      && NoSpaceBefore(r, {'-'}) && NoSpaceAfter(r, {'-'})
      && NoSpaceBefore(r, Punctuation)
  {
    var t12 := ReplaceAll(t, CollapseSpaces);
    CollapseSpacing(t);
    HyphenFrom(t12, 0);
    var t13 := ReplaceAll(t12, TightHyphens);
    DropBeforeFrom(t13, 0, BeforePunctuation, {'-'}, {'-'});
  }

  // ---------------------------------------------------------------------
  // The Persian patch

  /** `postProcessPersian` replaces `tú'í` by itself: it changes nothing. */
  lemma PostProcessPersianIsIdentity(text: string)
    ensures PostProcessPersian(text) == text
  {
    RuleIsRewrite(text, TuiPattern, "tú'í");
    SelfRewriteIsIdentity(text, 0, TuiPattern);
  }

  // ---------------------------------------------------------------------
  // The ezafe connector

  /** Every U+200C becomes a hyphen and every other rune is kept. */
  lemma EzafeRule(s: string)
    ensures var r := ReplaceAll(s, LiteralRule(EzafePattern, "-"));
      |r| == |s| && forall i :: 0 <= i < |s| ==> r[i] == if s[i] == Zwnj then '-' else s[i]
  {
    RuleIsRewrite(s, EzafePattern, "-");
    RuneRewrite(s, 0, Zwnj, '-');
  }

  // ---------------------------------------------------------------------
  // `\b` in front of `'`

  /** `\b` before a rune that is not an ASCII word rune holds exactly after
      an ASCII word rune; `\B` there holds exactly at the text start or after
      another rune. */
  lemma BoundaryBeforeNonWord(s: string, p: nat)
    requires p < |s| && !IsWordChar(s[p])
    ensures AtBoundary(s, p) <==> p > 0 && IsWordChar(s[p - 1])
  {
  }

  /** As written, `\b'alá\s+al-` and `\b'an\s+al-` only match right after an
      ASCII word rune: never at the text start or after a space. */
  lemma ApostropheArticleAsWritten(s: string, p: nat, w: string)
    requires p <= |s| && |w| > 0 && w[0] == '\''
    requires PatternAt(s, p, ArticlePattern(w))
    ensures p > 0 && IsWordChar(s[p - 1])
  {
    assert s[p] == w[0];
    BoundaryBeforeNonWord(s, p);
  }

  /** With `\B`, they match wherever the words occur and no ASCII word rune
      comes before them. */
  lemma ApostropheArticle(s: string, p: nat, w: string)
    requires p <= |s| && |w| > 0 && w[0] == '\''
    ensures PatternAt(s, p, ArticlePatternNonBoundary(w)) <==>
      WordsEndAt(s, p, [w, "al-"], SomeSpaces).Some? && (p == 0 || !IsWordChar(s[p - 1]))
  {
    if WordsEndAt(s, p, [w, "al-"], SomeSpaces).Some? {
      assert s[p] == w[0];
      BoundaryBeforeNonWord(s, p);
    }
  }

  const AlaExample: string := "'alá al-x"

  /** As written, "'alá al-x" is left as it is. */
  lemma AlaAsWrittenMissesExample()
    ensures ReplaceAll(AlaExample, LiteralRule(ArticlePattern("'alá"), "'alá'l-")) == AlaExample
  {
    var pt := ArticlePattern("'alá");
    forall q | 0 <= q < |AlaExample|
      ensures !PatternAt(AlaExample, q, pt)
    {
      if q == 0 {
        BoundaryBeforeNonWord(AlaExample, 0);
      } else {
        assert AlaExample[q] != '\'';
      }
    }
    RuleIsRewrite(AlaExample, pt, "'alá'l-");
    RewriteWithoutOccurrence(AlaExample, 0, pt, "'alá'l-");
  }

  /** With `\B`, "'alá al-x" becomes "'alá'l-x". */
  lemma AlaContractsExample()
    ensures ReplaceAll(AlaExample, LiteralRule(ArticlePatternNonBoundary("'alá"), "'alá'l-")) == "'alá'l-x"
  {
    var s, pt := AlaExample, ArticlePatternNonBoundary("'alá");
    assert OccursAt(s, 0, "'alá");
    assert SkipSpaces(s, 5) == 5;
    assert SkipSpaces(s, 4) == 5;
    assert OccursAt(s, 5, "al-");
    assert WordsEndAt(s, 5, ["al-"], SomeSpaces) == Some(8);
    assert WordsEndAt(s, 0, ["'alá", "al-"], SomeSpaces) == Some(8);
    ApostropheArticle(s, 0, "'alá");
    assert PatternEnd(s, 0, pt) == 8;
    forall q | 8 <= q < |s|
      ensures !PatternAt(s, q, pt)
    {
    }
    RewriteWithoutOccurrence(s, 8, pt, "'alá'l-");
    assert s[8..] == "x";
    RuleIsRewrite(s, pt, "'alá'l-");
  }

  // ---------------------------------------------------------------------
  // `\b` after `í`

  /** As written, `\bal-mu'ṭí\b` only matches right before an ASCII word
      rune: never at the end of the text or before a space. */
  lemma MutiAsWritten(s: string, p: nat)
    requires p <= |s| && PatternAt(s, p, MutiPatternAsWritten)
    ensures p + 8 < |s| && IsWordChar(s[p + 8])
  {
    var e := p + 8;
    assert WordsEndAt(s, p, ["al-mu'ṭí"], SomeSpaces) == Some(e);
    assert s[e - 1] == "al-mu'ṭí"[7];
  }

  /** With `\B`, it matches wherever `al-mu'ṭí` occurs at a word start and no
      ASCII word rune follows it. */
  lemma Muti(s: string, p: nat)
    requires p <= |s|
    ensures PatternAt(s, p, MutiPattern) <==>
      OccursAt(s, p, "al-mu'ṭí") && AtBoundary(s, p) && (p + 8 == |s| || !IsWordChar(s[p + 8]))
  {
    if OccursAt(s, p, "al-mu'ṭí") {
      var e := p + 8;
      assert WordsEndAt(s, p, ["al-mu'ṭí"], SomeSpaces) == Some(e);
      assert s[e - 1] == "al-mu'ṭí"[7];
    }
  }

  const MutiExample: string := "al-mu'ṭí"

  /** As written, "al-mu'ṭí" on its own is left as it is. */
  lemma MutiAsWrittenMissesExample()
    ensures ReplaceAll(MutiExample, LiteralRule(MutiPatternAsWritten, "al-Mu'ṭí")) == MutiExample
  {
    var pt := MutiPatternAsWritten;
    forall q | 0 <= q < |MutiExample|
      ensures !PatternAt(MutiExample, q, pt)
    {
      if PatternAt(MutiExample, q, pt) {
        MutiAsWritten(MutiExample, q);
      }
    }
    RuleIsRewrite(MutiExample, pt, "al-Mu'ṭí");
    RewriteWithoutOccurrence(MutiExample, 0, pt, "al-Mu'ṭí");
  }

  /** With `\B`, it is capitalised. */
  lemma MutiCapitalisesExample()
    ensures ReplaceAll(MutiExample, LiteralRule(MutiPattern, "al-Mu'ṭí")) == "al-Mu'ṭí"
  {
    var s, pt := MutiExample, MutiPattern;
    assert OccursAt(s, 0, "al-mu'ṭí");
    Muti(s, 0);
    assert PatternEnd(s, 0, pt) == 8;
    RuleIsRewrite(s, pt, "al-Mu'ṭí");
  }
}
