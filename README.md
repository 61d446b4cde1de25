# Bahá'í transliterator — a Dafny model

This project models the core of a transliterator that turns Arabic and
Persian text into the Bahá'í scholarly romanisation. It also models the
pure helpers of the command that cleans Arabic-script leftovers out of
stored transliterations.

The transliterator (`transliterator.go`) builds a `Transliterator` object.
The object holds two dictionaries, the Arabic and Persian letter tables,
the vowel-mark table and a list of fourteen regular-expression
post-processing rules. `Transliterate` runs this pipeline:

1. `preserveFormatting` puts one blank after leading markdown header marks
   and closes up `*(` and `)*`.
2. `handlePhrases` replaces known phrases with `{{PHRASE:…}}` placeholder
   tokens.
3. The text is split into fields with `strings.Fields`. Each field is
   resolved by `transliterateWord`: a placeholder is unwrapped, text
   without Arabic script passes through, otherwise the diacritic-free form
   is looked up in the dictionary, and failing that the field is converted
   rune by rune (`applyHeuristics`) and given vowels (`insertVowels`).
4. The results are joined with single blanks.
5. `postProcess` applies the rule list, then the Arabic or Persian patches,
   then `finalCleanup`: capitalisation, space collapsing, apostrophe
   spacing and trimming.
6. The result is trimmed once more.

The mixed-character cleaner (`cmd/fix_mixed_chars/main.go`) contributes
these pure helpers:

- `isArabicScript`;
- `cleanMixedCharacters`, which maps or drops Arabic-script runes, then
  collapses spaces and trims;
- `findArabicCharacters`, which lists the distinct Arabic-script runes in
  order of first occurrence;
- `analyzeMixedCharacters`;
- `truncateString` and `min`.

## How it is modelled

- **Strings.** Go strings are sequences of runes (`seq<char>`).
  `truncateString` counts bytes, so it works on the UTF-8 encoding
  (`Text.Utf8`).
- **Regular expressions.** Every pattern the core hands to
  `ReplaceAllString` or `ReplaceAllStringFunc`, and whose matches are never
  empty, is written out as a rule of the small engine in `regex.dfy`. A rule is a
  list of alternatives tried in order. Each alternative is a sequence of
  elements: literals, greedy repetitions of a rune class, `\b`, `\B` and
  `^`. `ReplaceAll` rewrites the leftmost-first, non-overlapping matches
  from left to right, the way Go's `ReplaceAllString` and
  `ReplaceAllStringFunc` do. Three patterns are modelled outside the
  engine:
  - `IsPersian`'s two `MatchString` tests (`[پچژگ]` and the case-insensitive
    list of common words) are the predicates `Script.HasPersianLetter` and
    `Script.HasPersianWord`;
  - `IsArabic`'s `[\u0600-\u06FF]` is the escape check
    `Script.EscapesValid`, which decides whether it compiles, together with
    the block test `Script.ContainsArabicScript`;
  - the pattern `\b\b` of an empty phrase key, whose matches are empty, is
    `Phrases.MarkBoundaries`.
- **Whitespace and boundaries.** Go's `\s` is `[\t\n\f\r ]`.
  `unicode.IsSpace`, used by `strings.Fields` and `strings.TrimSpace`, is
  the larger set in `Text.IsUnicodeSpace`. `\b` is the ASCII word boundary.
- **Literal-word rules.** Rules made of literal words separated by `\s+`
  are also given a direct, engine-free reading (`LiteralRules.Rewrite`),
  and the two readings are proved equal. These are the article
  contractions, the patches, the fixed phrases and the phrase dictionary.
- **The object.** The `Transliterator` is a class. Its initialisers are
  methods that assign its fields, and `Valid` states what they leave
  there. For an object in that state, `Transliterate` is proved equal to
  the stage-by-stage function `Transliteration.Pipeline` with the
  program's tables and its rules as written (`PostProcessors`,
  `ArabicPatches`). The pipeline's properties are proved about that
  function. The same function with `PostProcessorsIntended` and
  `ArabicPatchesIntended` is the pipeline the two faulty rules under
  "Findings" were meant to give.

## Model

| member | source | states |
|---|---|---|
| `Text.TrimSpace` | transliterator.go:263 | `strings.TrimSpace`: the result has no white space at either end, a trimmed text is returned unchanged, a text that starts with a non-space rune keeps that rune first, and the result is empty exactly when the text is all white space |
| `Text.TrimSpaceIsSlice` | transliterator.go:506 | the trimmed text is a contiguous slice of the input, and everything before and after that slice is white space, so only the leading and trailing white space is removed |
| `Text.TrimKeepsSpacing` | transliterator.go:506 | trimming keeps every spacing invariant the text had: no double space, only blanks, no space after or before given marks |
| `Text.FieldsAreFields` | transliterator.go:251 | every piece `strings.Fields` returns is non-empty and holds no white space |
| `Text.FieldsRunesFrom` | transliterator.go:251 | every rune of every field occurs in the split text |
| `Text.FieldsOfJoin` | transliterator.go:251-260 | round trip: splitting the single-blank join of fields gives the fields back |
| `Text.JoinOfFields` | transliterator.go:251-260 | the converse: for any text, joining its fields with blanks gives the text with every white-space run replaced by one blank and the ends trimmed (`CollapseSpaceRuns` then `TrimSpace`), so `strings.Fields` drops white space and nothing else |
| `Text.ReplaceFirstOnlyFirst` | transliterator.go:477 | `strings.Replace(…, 1)`: a rune changes only at the first occurrence of the old rune |
| `Text.ReplaceFirstWrites` | transliterator.go:477 | when the old rune occurs, the new rune appears in the result |
| `Text.ReplaceFirstAbsent` | transliterator.go:477 | when the old rune does not occur, the text is unchanged |
| `Text.ReplaceFirstAtEnd` | transliterator.go:477 | when the old rune occurs only last, only the last rune changes |
| `Text.Utf8LengthIsRuneCount` | cmd/fix_mixed_chars/main.go:384 | the byte length of a text equals its rune count exactly when every rune is ASCII |
| `Regex.RunLength` | transliterator.go:226 | a greedy run of class runes stays in the text, respects its maximum, stops before a non-class rune, and is empty exactly when no class rune is at the start |
| `Regex.RunLengthExact` | transliterator.go:226 | a run of class runes followed by a non-class rune or the text end is exactly the greedy run |
| `Regex.MatchElems` | transliterator.go:434 | a match of an element sequence starts at the given position and has ascending bounds within the text, one per element boundary |
| `Regex.FirstMatch` | transliterator.go:434 | alternatives are tried in order: the match reported is that of the first alternative that matches, and none reported means no remaining alternative matches |
| `Regex.ScanStep` | transliterator.go:434 | one step of `ReplaceAllString`: a matched span is replaced and the scan resumes at its end, otherwise one rune is copied |
| `Regex.ReplaceFromNoMatch` | transliterator.go:434 | a rule that matches nowhere leaves the text unchanged |
| `Regex.LiteralAbsentMeansUnchanged` | transliterator.go:434 | a rule whose matches must contain a literal leaves any text without that literal unchanged |
| `Regex.ApplyRulesAppend` | transliterator.go:433-435 | applying the concatenation of two rule lists is applying the first list, then the second |
| `Regex.ApplyRulesUnchanged` | transliterator.go:433-435 | rules that each leave a text unchanged leave it unchanged together |
| `Regex.ApplyInOrder` | transliterator.go:433-435 | the loop over the rule list computes the rules applied in list order |
| `LiteralRules.WordsMatch` | transliterator.go:211-219 | the engine's match of words separated by `\s+` ends exactly where the direct word-by-word reading says |
| `LiteralRules.PatternMatch` | transliterator.go:211-223 | a literal-word rule matches at a position exactly when the direct reading finds its lead assertion, words and trail there, with the same end |
| `LiteralRules.RuleIsRewrite` | transliterator.go:211-223 | `ReplaceAllString` with a literal-word rule equals the direct left-to-right rewrite |
| `LiteralRules.RewriteWithoutOccurrence` | transliterator.go:211-223 | a text in which the pattern occurs nowhere is left unchanged by the rewrite |
| `LiteralRules.SelfRewriteIsIdentity` | transliterator.go:467 | replacing a one-word pattern by its own word changes nothing |
| `LiteralRules.RuneRewrite` | transliterator.go:223 | a one-rune pattern replaced by one rune changes exactly the occurrences of that rune, position by position |
| `Script.ContainsArabicScript` | transliterator.go:350-358 | true exactly when some rune lies in U+0600–U+06FF |
| `Script.ContainsArabicScriptConcat` | transliterator.go:350-358 | a concatenation contains Arabic script exactly when one of its parts does |
| `Script.IsArabicAsWritten` | transliterator.go:509-514 | `IsArabic` as written: it panics exactly when its pattern does not compile, and when it returns it answers whether the text contains Arabic script |
| `Script.IsArabicAlwaysPanics` | transliterator.go:511 | the pattern uses a `\u` escape, which Go's regexp does not know, so `IsArabic` panics on every input |
| `Script.IntendedPatternCompiles` | transliterator.go:511 | the pattern written with `\x{…}` escapes compiles |
| `Script.IsArabic` | transliterator.go:509-514 | the corrected `IsArabic` is true exactly when the text contains a rune of the Arabic block |
| `Script.AutoDetectLanguage` | transliterator.go:516-530 | Persian exactly when the text has a Persian-only letter or one of the nine common Persian words, Arabic otherwise |
| `Script.PersianLetterDecides` | transliterator.go:519 | any text holding pe, che, zhe or gaf is detected as Persian |
| `Script.MissingLettersMeanArabic` | transliterator.go:520-530 | a text with no Persian-only letter that lacks one rune of each common word is detected as Arabic |
| `Script.DetectsBasmalaTitlesAsArabic` | transliterator_test.go:165-169 | "Allah al-Rahman al-Rahim" is detected as Arabic |
| `Script.DetectsPersianLetters` | transliterator_test.go:170-174 | "parvardigar che konam" is detected as Persian |
| `Script.DetectsPersianWords` | transliterator_test.go:175-179 | "khuda midanad" is detected as Persian |
| `Script.DetectsBasmalaAsArabic` | transliterator_test.go:180-184 | "bismi Allah" is detected as Arabic |
| `Diacritics.RemoveDiacritics` | transliterator.go:360-371 | the loop writes exactly the runes that are not U+064B–U+065F or U+0670 |
| `Diacritics.StripDiacriticsConcat` | transliterator.go:360-371 | stripping distributes over concatenation |
| `Diacritics.StripDiacriticsMembers` | transliterator.go:360-371 | a rune is in the result exactly when it is in the input and is no diacritic |
| `Diacritics.StripDiacriticsUnchanged` | transliterator.go:360-371 | the text is unchanged exactly when it holds no diacritic |
| `Diacritics.StripDiacriticsIdempotent` | transliterator.go:360-371 | stripping twice is stripping once |
| `Diacritics.StripDiacriticsSkipsMark` | transliterator.go:365-366 | inserting a diacritic anywhere does not change the stripped form |
| `Tables.AdditionsAreNew` | transliterator.go:177-181 | pe, che, zhe and gaf are not keys of the Arabic map |
| `Tables.NewLetterKeys` | transliterator.go:177-193 | of the overridden keys only Persian ye U+06CC is new, so the Persian map adds five keys |
| `Tables.PersianLetterKeys` | transliterator.go:171-193 | the Persian map's keys are the Arabic keys plus the five new letters |
| `Tables.PersianExtendsArabic` | transliterator.go:171-193 | the Persian map agrees with the Arabic map except on the overridden letters, where it holds the Persian values (waw is "w" in Arabic and "v" in Persian) |
| `Tables.ArabicKeysInBlock` | transliterator.go:159-169 | every letter key lies in the Arabic block |
| `Tables.ArabicKeysNotDiacritics` | transliterator.go:159-169 | no letter key is a diacritic |
| `Tables.VowelMarksAreDiacritics` | transliterator.go:196-200 | every vowel-mark key is a diacritic and its value holds no Arabic script |
| `Tables.TablesAreArabicToLatin` | transliterator.go:157-201 | for either language the letter keys are non-diacritic runes of the block disjoint from the vowel marks, and no table value holds Arabic script |
| `Tables.LetterMap` | transliterator.go:323-329 | Arabic gets the Arabic table and Persian the Persian table |
| `Heuristics.ApplyHeuristics` | transliterator.go:374-406 | the loop builds the rune-by-rune conversion (vowel marks first, then letters with the initial-alif exception, else the rune kept) and hands it to `insertVowels` |
| `Heuristics.AlifInitialOnlyForAllah` | transliterator.go:390-412 | for a word starting with alif U+0627, the divine-name exception holds exactly when the word strips to "Allah" |
| `Heuristics.UnmappedRuneKept` | transliterator.go:395-401 | a rune in neither table comes through the conversion |
| `Heuristics.ConvertWithoutScript` | transliterator.go:378-402 | a word without Arabic script is converted to itself |
| `Heuristics.KnownRunesLeaveNoScript` | transliterator.go:378-402 | a word whose Arabic-block runes are all in the tables converts to text without Arabic script |
| `Heuristics.HeuristicsScript` | transliterator.go:374-406 | the heuristic result holds Arabic script exactly when the word holds a block rune that neither table knows |
| `Heuristics.HamzaIsUnmapped` | transliterator.go:159-200 | the hamza U+0621 is in the block but in no table, so it passes through the heuristics untransliterated |
| `Vowels.InsertVowelsFrom` | transliterator.go:417-423 | the leftmost-first scan for consonant pairs equals the direct recursive definition `Vowelize` |
| `Vowels.InsertVowelsIsVowelize` | transliterator.go:415-426 | `insertVowels` is `Vowelize` |
| `Vowels.VowelizeLength` | transliterator.go:417-423 | the result is longer than the input by the number of pairs the scan finds |
| `Vowels.PairCountPositive` | transliterator.go:417-423 | the scan finds a pair exactly when two ASCII consonants stand side by side |
| `Vowels.InsertVowelsUnchanged` | transliterator.go:415-426 | the text is unchanged exactly when it has no two adjacent consonants |
| `Vowels.VowelizeMask` | transliterator.go:417-423 | every inserted rune is an "a" between two consonants, and deleting the inserted runes gives the input back |
| `Vowels.VowelizeKeepsScript` | transliterator.go:417-423 | inserting vowels neither adds nor removes Arabic script |
| `Spacing.SpaceRunAt` | transliterator.go:226 | the run of `\s` runes at a position stays in the text, stops before a non-space, and is empty exactly when no space is there |
| `Spacing.CollapseFrom` | transliterator.go:226 | after `\s+` -> " " no two spaces are adjacent, every space is a blank, and the first rune keeps its kind |
| `Spacing.CollapseSpacing` | transliterator.go:500 | `\s+` -> " " leaves single blanks only |
| `Spacing.CollapseRunesFrom` | cmd/fix_mixed_chars/main.go:303 | the collapse writes only runes of its input and blanks |
| `Spacing.CollapseIdentity` | transliterator.go:500 | text that already has single blanks only is unchanged |
| `Spacing.AfterApostropheFrom` | transliterator.go:503 | after `'\s+` -> "'" no space follows an apostrophe, and single blanks stay single blanks |
| `Spacing.DropBeforeFrom` | transliterator.go:504 | dropping a space before a mark leaves no space before the mark and keeps the other spacing invariants |
| `Spacing.HyphenFrom` | transliterator.go:227 | after `\s*-\s*` -> "-" no space stands on either side of a hyphen and single blanks stay single blanks |
| `Phrases.HandlePhrases` | transliterator.go:279-305 | the loop rewrites with each key of the phrase dictionary in visiting order, then with the four fixed Arabic phrases for Arabic only |
| `Phrases.PhraseRuleIsRewrite` | transliterator.go:291-292 | the pass of a non-empty key replaces, left to right, every occurrence of the key between ASCII word boundaries with its placeholder |
| `Phrases.EmptyPhraseMarksWords` | transliterator.go:291-292 | an empty key gives the pattern `\b\b`, which puts the placeholder at both ends of every ASCII word: "ab cd" gets four placeholders |
| `Phrases.MarkBoundariesWithoutWords` | transliterator.go:291-292 | an empty key leaves a text without ASCII word runes unchanged |
| `Phrases.PhrasesKeepEmpty` | transliterator.go:288-294 | the phrase loop leaves the empty text empty, whatever the keys |
| `Phrases.LiteralRuleNeedsFirstWord` | transliterator.go:291 | a phrase rule matches only where its first word occurs |
| `Phrases.AbsentPhraseUnchanged` | transliterator.go:291-292 | a phrase that does not occur leaves the text unchanged |
| `Phrases.PhrasesAbsentUnchanged` | transliterator.go:279-305 | a text without Arabic script and without any dictionary phrase passes through `handlePhrases` unchanged |
| `Phrases.FixedPhrasesNeedArabicScript` | transliterator.go:297-302 | the fixed Arabic phrases leave text without Arabic script unchanged |
| `Words.Unwrap` | transliterator.go:310-311 | a placeholder token is the opening marker, the inner text and the closing marker |
| `Words.PlaceholderRoundTrip` | transliterator.go:292-311 | round trip: the placeholder of a transliteration is a token that resolves back to that transliteration |
| `Words.WordScript` | transliterator.go:308-348 | with the program's tables and a dictionary of Latin values, a token keeps Arabic script only if it holds an Arabic-block rune no table maps; such a token always keeps script when the dictionary lacks its stripped form |
| `Words.WordStageNotIdempotent` | transliterator.go:308-348 | be, te, dal and U+061F give "batd؟", and a second pass gives "batad؟": resolving a word twice differs from resolving it once |
| `Words.SameStrippedFormSameEntry` | transliterator.go:332-344 | two tokens with the same diacritic-free form that hit the dictionary resolve alike |
| `Words.CommonWordsFirst` | transliterator.go:335-343 | a form in both common words and divine names takes the common-word entry |
| `Words.PassesThrough` | transliterator.go:315-317 | a token that is no placeholder and holds no Arabic-block rune comes through unchanged |
| `Words.SplitPlaceholderPiecesPassThrough` | transliterator.go:298-317 | the placeholder "yá Iláhí," holds a blank, so `strings.Fields` splits it and both halves pass through unchanged with the markers still in them |
| `Words.FallbackAllah` | transliterator.go:127-132 | at the word stage, with the built-in Arabic dictionary, "Allah" with or without shadda resolves to "Alláh" |
| `Words.FallbackKhuda` | transliterator.go:143-148 | at the word stage, with the built-in Persian dictionary, "khuda" resolves to "Khudá" |
| `Formatting.HeaderOnlyAtStart` | transliterator.go:269 | the header rule cannot match after the text start |
| `Formatting.HeaderSpacingEffect` | transliterator.go:269 | text starting with header marks gets one blank after the first (up to six) marks in place of the spaces there; other text is unchanged |
| `Formatting.ParenRules` | transliterator.go:272-273 | the two parenthesis rules are the direct rewrites of `*` + spaces + `(` by "*(" and of `)` + spaces + `*` by ")*" |
| `PostProcess.PostProcessorsSpacing` | transliterator.go:204-240 | after the fourteen rules, as written or as intended, spaces are single blanks, no space touches a hyphen, and no space precedes `,.!?;:` |
| `PostProcess.SpacingRules` | transliterator.go:226-230 | the last three rules together establish those spacing invariants |
| `PostProcess.PostProcessPersianIsIdentity` | transliterator.go:465-470 | `postProcessPersian` replaces "tú'í" by itself and so changes nothing |
| `PostProcess.EzafeRule` | transliterator.go:223 | every zero-width non-joiner becomes a hyphen and every other rune is kept |
| `PostProcess.BoundaryBeforeNonWord` | transliterator.go:218-219 | before a non-word rune such as the apostrophe, `\b` holds exactly after an ASCII word rune |
| `PostProcess.ApostropheArticleAsWritten` | transliterator.go:218-219 | as written, `\b'alá\s+al-` and `\b'an\s+al-` match only right after an ASCII word rune |
| `PostProcess.AlaAsWrittenMissesExample` | transliterator.go:218 | as written, "'alá al-x" is left unchanged |
| `PostProcess.ApostropheArticle` | transliterator.go:218-219 | with `\B`, the rules match exactly where the words occur and no ASCII word rune precedes them |
| `PostProcess.AlaContractsExample` | transliterator.go:218 | with `\B`, "'alá al-x" becomes "'alá'l-x" |
| `PostProcess.MutiAsWritten` | transliterator.go:457 | as written, `\bal-mu'ṭí\b` matches only right before an ASCII word rune |
| `PostProcess.MutiAsWrittenMissesExample` | transliterator.go:457 | as written, "al-mu'ṭí" on its own is left unchanged |
| `PostProcess.Muti` | transliterator.go:457 | with a trailing `\B`, the rule matches exactly where "al-mu'ṭí" starts at a boundary and no ASCII word rune follows |
| `PostProcess.MutiCapitalisesExample` | transliterator.go:457 | with a trailing `\B`, "al-mu'ṭí" becomes "al-Mu'ṭí" |
| `Cleanup.LastBlank` | transliterator.go:489-493 | the position of the last blank in a match, or none when it has no blank |
| `Cleanup.SentenceFixCaseOnly` | transliterator.go:475-480 | the sentence-start fix changes only ASCII letter case |
| `Cleanup.NewlineFixCaseOnly` | transliterator.go:483-485 | the newline fix changes only ASCII letter case |
| `Cleanup.HeaderFixCaseOnly` | transliterator.go:488-497 | the header fix changes only ASCII letter case |
| `Cleanup.CaseRuleFrom` | transliterator.go:475-497 | `ReplaceAllStringFunc` with a case-only function changes only letter case in the whole text |
| `Cleanup.Capitalize` | transliterator.go:474-497 | the three capitalisation rules together change only ASCII letter case |
| `Cleanup.SentenceMatch` | transliterator.go:475 | a match of `(^\|\. +)([a-z])` is one lower-case letter, or a dot, blanks and a lower-case letter |
| `Cleanup.StartCapitalised` | transliterator.go:475-480 | a text starting with a lower-case letter gets it upper-cased |
| `Cleanup.AfterDotCapitalised` | transliterator.go:475-480 | a lower-case letter after a dot and blanks is upper-cased |
| `Cleanup.CapitalizeKeepsUpper` | transliterator.go:474-497 | upper-case letters are never changed |
| `Cleanup.HeaderFixNeedsBlank` | transliterator.go:488-497 | on a header match (one to six '#', white space, a lower-case letter) the callback changes only the letter, and upper-cases it exactly when the rune before it is a blank; after "#\t" the letter stays lower-case, because the match is split on " " alone |
| `Cleanup.CapitalizeStart` | transliterator.go:474-497 | the capitalisation stage upper-cases a lower-case first letter |
| `Cleanup.CapitalizeAfterDot` | transliterator.go:474-497 | the capitalisation stage upper-cases a lower-case letter after ". " |
| `Cleanup.FinalCleanup` | transliterator.go:473-507 | the result is trimmed, its spaces are single blanks, and no space stands beside an apostrophe |
| `Cleanup.FinalCleanupSpacing` | transliterator.go:499-506 | the collapse, the two apostrophe rules and the trim establish those invariants and keep a non-space first rune |
| `Cleanup.FinalCleanupAfterDot` | transliterator.go:473-507 | in a trimmed, single-blanked text without apostrophes, a lower-case letter after ". " comes out of `finalCleanup` upper-cased, in the same place |
| `Cleanup.FinalCleanupCapitalisesStart` | transliterator.go:473-507 | a text starting with a lower-case letter comes out starting with it upper-cased |
| `Transliteration.PlainWordsPassThrough` | transliterator.go:310-317 | fields that are no placeholders and hold no Arabic script come through the word stage unchanged |
| `Transliteration.PipelineWithoutScript` | transliterator.go:243-264 | a text without Arabic script, `{` or any dictionary phrase is only re-spaced and post-processed |
| `Transliteration.EmptyTextGivesEmpty` | transliterator.go:243-264 | the empty text is transliterated to the empty text |
| `Transliteration.CopyLetters` | transliterator.go:172-175 | the key-by-key copy equals the Arabic map |
| `Transliteration.Transliterator.constructor` | transliterator.go:78-95 | `New`: any loaded dictionaries are kept, the built-in ones are used when loading fails, and the tables and rules are set (`Valid`) |
| `Transliteration.Transliterator.InitializeFallbackMappings` | transliterator.go:125-154 | sets the two built-in dictionaries and nothing else |
| `Transliteration.Transliterator.InitializeLetterMappings` | transliterator.go:157-201 | sets the Arabic, Persian and vowel-mark tables and nothing else |
| `Transliteration.Transliterator.InitializePostProcessors` | transliterator.go:204-240 | appends the fourteen rules as written, `\b` in front of `'alá` and `'an` included, in order, and changes nothing else |
| `Transliteration.Transliterator.TransliterateWord` | transliterator.go:308-348 | returns the resolution of the token with the language's dictionary, the vowel marks and the language's letter table; with a dictionary of Latin values, the result holds Arabic script only if the token holds a rune no table maps |
| `Transliteration.Transliterator.TransliterateWords` | transliterator.go:251-257 | returns one resolution per field, in order, with the program's tables |
| `Transliteration.Transliterator.PostProcess` | transliterator.go:429-448 | the fourteen rules and the Arabic patches as written, or the Persian patch, then `finalCleanup`; the result is trimmed, single-blanked and has no space beside an apostrophe |
| `Transliteration.Transliterator.Transliterate` | transliterator.go:243-264 | the pipeline stage by stage with the program's tables and rules as written; the output is trimmed, single-blanked and has no space beside an apostrophe |
| `MixedChars.ArabicBlockIsArabicScript` | cmd/fix_mixed_chars/main.go:230-237 | `isArabicScript` includes the whole Arabic block, and below U+0700 it is exactly that block |
| `MixedChars.CleanTableIsLatin` | cmd/fix_mixed_chars/main.go:241-287 | every key of the cleaning table is an Arabic-block rune and every value is ASCII |
| `MixedChars.CleanMixedCharacters` | cmd/fix_mixed_chars/main.go:239-307 | the loop and the two cleanup steps compute `CleanMixed` |
| `MixedChars.CleanRunesConcat` | cmd/fix_mixed_chars/main.go:290-299 | the rune pass distributes over concatenation |
| `MixedChars.CleanRunesKeepsPlain` | cmd/fix_mixed_chars/main.go:296-297 | text without Arabic script passes through the rune pass unchanged |
| `MixedChars.CleanRunesLeavesNoScript` | cmd/fix_mixed_chars/main.go:290-299 | with an ASCII-valued table, no Arabic-script rune is left |
| `MixedChars.UnmappedLettersDeleted` | cmd/fix_mixed_chars/main.go:292-295 | be, te, jim, Arabic ye and Arabic kaf have no entry and are dropped |
| `MixedChars.CleanMixedIsClean` | cmd/fix_mixed_chars/main.go:239-307 | the result has no Arabic script, is trimmed and has single blanks only |
| `MixedChars.CleanMixedFixedPoints` | cmd/fix_mixed_chars/main.go:239-307 | the cleaner changes a text exactly when the text is not clean, and it is idempotent |
| `MixedChars.CleanKept` | cmd/fix_mixed_chars/main.go:239-307 | a clean text is left unchanged |
| `MixedChars.FindArabicCharacters` | cmd/fix_mixed_chars/main.go:213-228 | the loop with its `seen` set returns the one-rune strings of `ArabicCharsOf` |
| `MixedChars.ArabicCharsSpec` | cmd/fix_mixed_chars/main.go:213-228 | the runes found are Arabic script and in the text, every such rune is found, none twice, in first-occurrence order |
| `MixedChars.ArabicCharsSound` | cmd/fix_mixed_chars/main.go:217-219 | every rune found is Arabic script and occurs in the text |
| `MixedChars.ArabicCharsComplete` | cmd/fix_mixed_chars/main.go:217-224 | every Arabic-script rune of the text is found |
| `MixedChars.ArabicCharsDistinct` | cmd/fix_mixed_chars/main.go:220-223 | no rune is found twice |
| `MixedChars.ArabicCharsInOrder` | cmd/fix_mixed_chars/main.go:217-224 | the runes come in the order of their first occurrence |
| `MixedChars.AnalyzeMixedCharacters` | cmd/fix_mixed_chars/main.go:201-211 | the cleaned text is set; the record is flagged exactly when the original is not clean; the rune list is replaced only when flagged; the other fields are kept |
| `MixedChars.SpacingOnlyChange` | cmd/fix_mixed_chars/main.go:201-211 | a text with only a trailing blank is flagged although it holds no Arabic script |
| `MixedChars.TruncateString` | cmd/fix_mixed_chars/main.go:383-388 | a negative limit panics; text within the limit is returned as is; longer text is cut to the limit in bytes and "..." is appended |
| `MixedChars.TruncateAscii` | cmd/fix_mixed_chars/main.go:383-388 | on ASCII text the byte cut is the rune prefix followed by "..." |
| `MixedChars.Min` | cmd/fix_mixed_chars/main.go:390-394 | the result is one of the two arguments and no larger than either |

## Left out

- Loading the dictionary files (`loadDictionaries`, transliterator.go:98-122) is file I/O. The constructor receives its outcome as a parameter: both dictionaries, or none when a file cannot be read or parsed.
- The dictionary fields that are never read are left out: metadata, vowel patterns, article, ezafe and heuristic rules, and the category, notes, root and meaning of an entry. A `Dictionary` holds only the three maps from key to transliteration.
- `Phrases.PhraseRule`: a `$` in a phrase transliteration is taken literally. Go's `ReplaceAllString` would expand it as a group reference.
- The order in which Go visits the phrase map in `handlePhrases` is unspecified. It is a parameter of `Transliterate`, restricted to orders that visit each key exactly once.
- `insertVowels` takes a dictionary argument it never reads, so `Vowels.InsertVowels` has no such parameter. `applyHeuristics` passes it through unused.
- `Transliteration.Transliterator.InitializeLetterMappings`: the copy loop and the fourteen single-key assignments are modelled as a loop on a local map (`CopyLetters`) followed by two map merges. The resulting field values are the same.
- `Cleanup.NewlineFixCaseOnly`: the newline capitalisation rule is modelled, but inside `Transliterate` it never fires. The post-processing `\s+` rule has already turned every newline into a blank.
- `MixedChars.TruncateString`: works on the UTF-8 bytes of the text, as Go's `len` and slicing do. A cut inside a multi-byte rune yields bytes that are not valid UTF-8, and the model does not decode them back into runes.
- The command around the cleaner is left out: `main`, `fixMixedCharacters`, `getTransliterationRecords`, `getOriginalText`, `updateRecord` and `commitChanges`. They shell out to a database, read and write files and print reports.
- The test files (`transliterator_test.go`, `dictionary_optimizer_test.go`, `database_tester.go`) are not part of this model. The four language-detection cases are restated as lemmas. The two common-word tests run `Transliterate` after loading the dictionary files. `Words.FallbackAllah` and `Words.FallbackKhuda` are only their word-stage counterparts, over the built-in dictionaries.
- `Cleanup.CapitalizeAfterDot` and `Cleanup.FinalCleanupAfterDot`: only blanks may stand between the dot and the letter, as `\. +` demands. In ".\ta" the letter is not capitalised, and the later `\s+` step turns the tab into a blank, so the text comes out as ". a" with a lower-case letter. `Cleanup.FinalCleanupAfterDot` carries the promise through `finalCleanup` only for text that is already trimmed, single-blanked and free of apostrophes; for other text, the letter's new position after the spacing steps is not tracked.
- Invalid UTF-8 input is not modelled: text is a sequence of Unicode scalar values.
- Transliterating twice is not the same as transliterating once, so the model proves no idempotence for `Transliterate`. A rune of the Arabic block that no table maps, such as the question mark U+061F or the hamza U+0621, keeps the first result in Arabic script. A second pass then sends the word through the heuristics again, and vowel insertion can find consonant pairs the first pass left. `Words.WordStageNotIdempotent` shows this for one word. The whole pipeline is not worked through for that input.
- The empty-key pass (`Phrases.MarkBoundaries`) models Go's rule for empty matches in `ReplaceAllString` for the one pattern `\b\b` only. The regular-expression engine in `regex.dfy` replaces non-empty matches only, and no other pattern of the core can match the empty text.

## Findings

| source | as written | input that shows it | evidently intended | confidence | as-written member | corrected member |
|---|---|---|---|---|---|---|
| transliterator.go:511 | the raw-string pattern `[\u0600-\u06FF]` is passed to `MustCompile`, but Go's regexp syntax has no `\u` escape | any text, e.g. "" | `[\x{0600}-\x{06FF}]`: true exactly when a rune of the Arabic block occurs | not executed | `Script.IsArabicAlwaysPanics` | `Script.IsArabic` |
| transliterator.go:218-219 | `\b'alá\s+al-` and `\b'an\s+al-`: `\b` before `'` needs an ASCII word rune just before it | "'alá al-x" is left unchanged | the particle as a word of its own (`\B` before `'`) contracts to "'alá'l-x" | not executed | `PostProcess.AlaAsWrittenMissesExample` | `PostProcess.AlaContractsExample` |
| transliterator.go:457 | `\bal-mu'ṭí\b`: `í` is not an ASCII word rune, so the trailing `\b` needs an ASCII word rune right after it | "al-mu'ṭí" is left unchanged | capitalised when no ASCII word rune follows (`\B` after `í`): "al-Mu'ṭí" | not executed | `PostProcess.MutiAsWrittenMissesExample` | `PostProcess.MutiCapitalisesExample` |

The `Transliterator` runs the rules as written, so it shows the last two
faults: it contracts `'alá` and `'an` only right after an ASCII word rune,
and capitalises `al-mu'ṭí` only right before one. The corrected rules are in the lists
`PostProcess.LiteralProcessorsIntended` and
`PostProcess.ArabicPatchesIntended`. `Transliteration.Pipeline` with
`PostProcessorsIntended` and `ArabicPatchesIntended` is the intended
pipeline, and the spacing properties of the rule list hold for both lists
(`PostProcess.PostProcessorsSpacing`).
