/** `finalCleanup` (transliterator.go:473-507): three capitalisation rules
    written with `ReplaceAllStringFunc`, then the space collapse, the two
    apostrophe rules and `strings.TrimSpace`. */
module Cleanup {
  import opened Text
  import opened Regex
  import opened Spacing

  /** `\. +`. */
  const Blanks1: Elem := Repeat(BlankClass, 1, None)

  const Lower1: Elem := Repeat(LowerClass, 1, Some(1))

  /** `(^|\. +)([a-z])`, rewritten by `SentenceFix`. */
  const SentenceRule: Rule :=
    Rule([[Start, Lower1], [Lit("."), Blanks1, Lower1]], Func(SentenceFix))

  /** `(\n)([a-z])`, rewritten by `NewlineFix`. */
  const NewlineRule: Rule := Rule([[Lit("\n"), Lower1]], Func(NewlineFix))

  /** `(#{1,6}\s+)([a-z])`, rewritten by `HeaderFix`. */
  const HeaderRule: Rule :=
    Rule([[Repeat(HashClass, 1, Some(6)), Spaces1, Lower1]], Func(HeaderFix))

  /** A match that starts with "." has the first occurrence of its last rune
      upper-cased; any other match is upper-cased as a whole. */
  function SentenceFix(m: string): string {
    if |m| > 0 && m[0] == '.' then ReplaceFirst(m, m[|m| - 1], UpperRune(m[|m| - 1]))
    else UpperString(m)
  }

  /** The first rune is kept and the rest upper-cased (matches are never empty). */
  function NewlineFix(m: string): string {
    if |m| == 0 then m else m[..1] + UpperString(m[1..])
  }

  /** Index of the last blank of `m`. */
  function LastBlank(m: string): (r: Option<nat>)
    ensures r.Some? ==> r.value < |m| && m[r.value] == ' ' && forall j :: r.value < j < |m| ==> m[j] != ' '
    ensures r.None? ==> ' ' !in m
  {
    if |m| == 0 then None
    else if m[|m| - 1] == ' ' then Some(|m| - 1)
    else LastBlank(m[..|m| - 1])
  }

  /** Splitting the match on blanks, upper-casing the first rune of the last
      part and joining again: only the rune right after the last blank can
      change, and nothing changes when the match holds no blank. */
  function HeaderFix(m: string): string {
    match LastBlank(m)
    case None => m
    case Some(k) => if k + 1 < |m| then m[..k + 1] + [UpperRune(m[k + 1])] + m[k + 2..] else m
  }

  /** `b` is `a` with some ASCII lower-case letters upper-cased. */
  predicate CaseOnly(a: string, b: string) {
    |a| == |b| && forall i :: 0 <= i < |a| ==> b[i] == a[i] || (IsAsciiLower(a[i]) && b[i] == ToUpperAscii(a[i]))
  }

  lemma CaseOnlyConcat(a: string, b: string, a': string, b': string)
    requires CaseOnly(a, b) && CaseOnly(a', b')
    ensures CaseOnly(a + a', b + b')
  {
    var x, y := a + a', b + b';
    assert forall i :: |a| <= i < |x| ==> x[i] == a'[i - |a|] && y[i] == b'[i - |a|];
  }

  lemma SentenceFixCaseOnly(m: string)
    ensures CaseOnly(m, SentenceFix(m))
  {
    if |m| > 0 && m[0] == '.' {
      ReplaceFirstRunes(m, m[|m| - 1], UpperRune(m[|m| - 1]));
    }
  }

  lemma NewlineFixCaseOnly(m: string)
    ensures CaseOnly(m, NewlineFix(m))
  {
    if |m| > 0 {
      var r := NewlineFix(m);
      assert forall i :: 1 <= i < |m| ==> r[i] == UpperRune(m[1..][i - 1]);
    }
  }

  lemma HeaderFixCaseOnly(m: string)
    ensures CaseOnly(m, HeaderFix(m))
  {
    match LastBlank(m)
    case None =>
    case Some(k) =>
      if k + 1 < |m| {
        var r := HeaderFix(m);
        assert forall i :: 0 <= i < |m| && i != k + 1 ==> r[i] == m[i];
      }
  }

  /** On a header match (one to six '#', white space, a lower-case letter)
      only the letter can change, and it is upper-cased exactly when a blank
      stands right before it: the split is on " " alone, so after "#\t" the
      letter is kept. */
  lemma HeaderFixNeedsBlank(hashes: string, sp: string, c: char)
    requires 1 <= |hashes| <= 6 && forall i :: 0 <= i < |hashes| ==> hashes[i] == '#'
    requires |sp| > 0 && forall i :: 0 <= i < |sp| ==> IsRegexSpace(sp[i])
    requires IsAsciiLower(c)
    ensures var m, r := hashes + sp + [c], HeaderFix(hashes + sp + [c]);
      |r| == |m| && r[..|m| - 1] == m[..|m| - 1]
      && r[|m| - 1] == (if sp[|sp| - 1] == ' ' then ToUpperAscii(c) else c)
  {
    var m := hashes + sp + [c];
    var n := |hashes|;
    assert m[|m| - 2] == sp[|sp| - 1];
    match LastBlank(m)
    case None =>
    case Some(k) =>
      assert k != |m| - 1;
      if k < |m| - 2 {
        assert k >= n;
        assert m[k + 1] == sp[k + 1 - n];
        assert UpperRune(m[k + 1]) == m[k + 1];
        assert m[..k + 1] + [m[k + 1]] + m[k + 2..] == m;
      } else {
        var r := HeaderFix(m);
        assert r == m[..|m| - 1] + [UpperRune(c)];
        assert r[..|m| - 1] == m[..|m| - 1];
      }
  }

  /** A rule whose function only upper-cases ASCII letters of its match does
      the same to the whole text. */
  lemma {:induction false} CaseRuleFrom(s: string, rule: Rule, pos: nat)
    requires pos <= |s| && rule.replacement.Func?
    requires forall m :: CaseOnly(m, rule.replacement.f(m))
    ensures CaseOnly(s[pos..], ReplaceFrom(s, rule, pos))
    decreases |s| - pos
  {
    if pos < |s| {
      if Fires(s, pos, rule) {
        CaseRuleFrom(s, rule, End(MatchAt(s, pos, rule).value));
        CaseFiredStep(s, rule, pos);
      } else {
        CaseRuleFrom(s, rule, pos + 1);
        CaseCopiedStep(s, rule, pos);
      }
    }
  }

  lemma CaseFiredStep(s: string, rule: Rule, pos: nat)
    requires pos < |s| && rule.replacement.Func? && Fires(s, pos, rule)
    requires forall m :: CaseOnly(m, rule.replacement.f(m))
    requires var e := End(MatchAt(s, pos, rule).value);
      CaseOnly(s[e..], ReplaceFrom(s, rule, e))
    ensures CaseOnly(s[pos..], ReplaceFrom(s, rule, pos))
  {
    var m := MatchAt(s, pos, rule);
    var e := End(m.value);
    var piece := s[pos..e];
    var out := rule.replacement.f(piece);
    assert m.value.bounds[0] == pos;
    ReplaceFromFiredFunc(s, rule, pos, m.value, out);
    CaseOnlyPieces(s, pos, e, out, ReplaceFrom(s, rule, e));
  }

  /** Case-only changes of two adjacent slices make one of their union. */
  lemma CaseOnlyPieces(s: string, pos: nat, e: nat, out: string, rest: string)
    requires pos <= e <= |s| && CaseOnly(s[pos..e], out) && CaseOnly(s[e..], rest)
    ensures CaseOnly(s[pos..], out + rest)
  {
    CaseOnlyConcat(s[pos..e], out, s[e..], rest);
    assert s[pos..] == s[pos..e] + s[e..];
  }

  lemma CaseCopiedStep(s: string, rule: Rule, pos: nat)
    requires pos < |s| && !Fires(s, pos, rule)
    requires CaseOnly(s[pos + 1..], ReplaceFrom(s, rule, pos + 1))
    ensures CaseOnly(s[pos..], ReplaceFrom(s, rule, pos))
  {
    var rest := ReplaceFrom(s, rule, pos + 1);
    assert ReplaceFrom(s, rule, pos) == [s[pos]] + rest;
    assert CaseOnly(s[pos..pos + 1], [s[pos]]);
    CaseOnlyPieces(s, pos, pos + 1, [s[pos]], rest);
  }

  /** The three capitalisation rules of `finalCleanup`, in order. */
  function Capitalize(text: string): (r: string)
    ensures CaseOnly(text, r)
  {
    var t1 := ReplaceAll(text, SentenceRule);
    var t2 := ReplaceAll(t1, NewlineRule);
    var t3 := ReplaceAll(t2, HeaderRule);
    CapitalizeCaseOnly(text, t1, t2, t3);
    t3
  }

  lemma CapitalizeCaseOnly(text: string, t1: string, t2: string, t3: string)
    requires t1 == ReplaceAll(text, SentenceRule)
    requires t2 == ReplaceAll(t1, NewlineRule)
    requires t3 == ReplaceAll(t2, HeaderRule)
    ensures CaseOnly(text, t3)
  {
    forall m
      ensures CaseOnly(m, SentenceFix(m)) && CaseOnly(m, NewlineFix(m)) && CaseOnly(m, HeaderFix(m))
    {
      SentenceFixCaseOnly(m);
      NewlineFixCaseOnly(m);
      HeaderFixCaseOnly(m);
    }
    CaseRuleFrom(text, SentenceRule, 0);
    CaseRuleFrom(t1, NewlineRule, 0);
    CaseRuleFrom(t2, HeaderRule, 0);
    assert text[0..] == text && t1[0..] == t1 && t2[0..] == t2;
  }

  /** The `^[a-z]` alternative matches only the first rune. */
  lemma SentenceAlt0(s: string, p: nat)
    requires p <= |s|
    ensures MatchElems(s, p, [Start, Lower1]).Some? ==>
      p == 0 && |s| > 0 && IsAsciiLower(s[0]) && MatchElems(s, p, [Start, Lower1]).value == [0, 0, 1]
  {
    MatchElemsTwo(s, p, Start, Lower1);
  }

  /** The `\. +[a-z]` alternative matches a dot, blanks and a letter. */
  lemma SentenceAlt1(s: string, p: nat)
    requires p <= |s|
    ensures var r := MatchElems(s, p, [Lit("."), Blanks1, Lower1]);
      r.Some? ==>
        var b := r.value;
        p < |s| && s[p] == '.' && p + 1 < b[2] < |s| && b[3] == b[2] + 1 && IsAsciiLower(s[b[2]])
        && forall j :: p < j < b[2] ==> s[j] == ' '
  {
    var r := MatchElems(s, p, [Lit("."), Blanks1, Lower1]);
    if r.Some? {
      MatchElemsCons(s, p, Lit("."), [Blanks1, Lower1]);
      assert [Lit(".")] + [Blanks1, Lower1] == [Lit("."), Blanks1, Lower1];
      assert s[p..p + 1][0] == s[p];
      BlanksThenLower(s, p + 1);
    }
  }

  /** ` +[a-z]`: blanks, then a lower-case letter. */
  lemma BlanksThenLower(s: string, p: nat)
    requires p <= |s|
    ensures var r := MatchElems(s, p, [Blanks1, Lower1]);
      r.Some? ==>
        var b := r.value;
        p < b[1] < |s| && b[2] == b[1] + 1 && IsAsciiLower(s[b[1]])
        && forall j :: p <= j < b[1] ==> s[j] == ' '
  {
    MatchElemsTwo(s, p, Blanks1, Lower1);
    RunLengthChars(s, p, {' '}, None);
  }

  /** A match of `(^|\. +)([a-z])` is either the first rune of the text, or a
      dot, blanks and a letter; it always ends with a lower-case letter. */
  lemma SentenceMatch(s: string, p: nat)
    requires p <= |s|
    ensures var m := MatchAt(s, p, SentenceRule);
      m.Some? ==>
        End(m.value) > p && IsAsciiLower(s[End(m.value) - 1])
        && (End(m.value) == p + 1 || (s[p] == '.' && forall j :: p < j < End(m.value) - 1 ==> s[j] == ' '))
  {
    SentenceAlt0(s, p);
    SentenceAlt1(s, p);
  }

  /** `(^|\. +)([a-z])` at a dot followed by blanks and a lower-case letter. */
  lemma AfterDotStep(s: string, d: nat, q: nat)
    requires d + 1 < q < |s| && s[d] == '.' && IsAsciiLower(s[q])
    requires forall j :: d < j < q ==> s[j] == ' '
    ensures ReplaceFrom(s, SentenceRule, d) ==
      s[d..q] + [ToUpperAscii(s[q])] + ReplaceFrom(s, SentenceRule, q + 1)
  {
    var out := s[d..q] + [ToUpperAscii(s[q])];
    AfterDotMatch(s, d, q);
    DotSliceFix(s, d, q);
    SentenceRuleCalls(s[d..q + 1]);
    SecondAltFired(s, SentenceRule, d, q, out);
  }

  /** A rule that fires at `d` with a match of the second alternative
      ending at `q + 1` writes its function's text and goes on there. */
  lemma SecondAltFired(s: string, rule: Rule, d: nat, q: nat, out: string)
    requires d + 1 < q < |s| && MatchAt(s, d, rule) == Some(Match(1, [d, d + 1, q, q + 1]))
    requires rule.replacement.Func? && rule.replacement.f(s[d..q + 1]) == out
    ensures ReplaceFrom(s, rule, d) == out + ReplaceFrom(s, rule, q + 1)
  {
    ReplaceFromFiredFunc(s, rule, d, Match(1, [d, d + 1, q, q + 1]), out);
  }

  lemma SentenceRuleCalls(t: string)
    ensures SentenceRule.replacement.Func? && SentenceRule.replacement.f(t) == SentenceFix(t)
  {
  }

  lemma DotSliceFix(s: string, d: nat, q: nat)
    requires d + 1 < q < |s| && s[d] == '.' && IsAsciiLower(s[q])
    requires forall j :: d < j < q ==> s[j] == ' '
    ensures SentenceFix(s[d..q + 1]) == s[d..q] + [ToUpperAscii(s[q])]
  {
    var t := s[d..q + 1];
    assert forall i :: 0 <= i < |t| ==> t[i] == s[d + i];
    SentenceFixAfterDot(t);
    assert t[..|t| - 1] == s[d..q];
  }

  /** The function upper-cases the letter that ends a dot-and-blanks match. */
  lemma SentenceFixAfterDot(t: string)
    requires |t| >= 3 && t[0] == '.' && IsAsciiLower(t[|t| - 1])
    requires forall i :: 0 < i < |t| - 1 ==> t[i] == ' '
    ensures SentenceFix(t) == t[..|t| - 1] + [ToUpperAscii(t[|t| - 1])]
  {
    var init := t[..|t| - 1];
    assert t[|t| - 1] !in init by {
      forall i | 0 <= i < |init| ensures init[i] != t[|t| - 1] {
        assert init[i] == t[i];
      }
    }
    ReplaceFirstAtEnd(t, t[|t| - 1], ToUpperAscii(t[|t| - 1]));
  }

  lemma AfterDotMatch(s: string, d: nat, q: nat)
    requires d + 1 < q < |s| && s[d] == '.' && IsAsciiLower(s[q])
    requires forall j :: d < j < q ==> s[j] == ' '
    ensures MatchAt(s, d, SentenceRule) == Some(Match(1, [d, d + 1, q, q + 1]))
  {
    SentenceAlt0(s, d);
    DotBlanksLower(s, d, q);
    MatchAtSecond(s, d, SentenceRule, [d, d + 1, q, q + 1]);
  }

  /** `\. +[a-z]` at a dot followed by blanks and a lower-case letter. */
  lemma DotBlanksLower(s: string, d: nat, q: nat)
    requires d + 1 < q < |s| && s[d] == '.' && IsAsciiLower(s[q])
    requires forall j :: d < j < q ==> s[j] == ' '
    ensures MatchElems(s, d, [Lit("."), Blanks1, Lower1]) == Some([d, d + 1, q, q + 1])
  {
    BlanksLowerAt(s, d + 1, q);
    DotAt(s, d);
    MatchElemsCons(s, d, Lit("."), [Blanks1, Lower1]);
    assert [Lit(".")] + [Blanks1, Lower1] == [Lit("."), Blanks1, Lower1];
    assert [d] + [d + 1, q, q + 1] == [d, d + 1, q, q + 1];
  }

  lemma DotAt(s: string, d: nat)
    requires d < |s| && s[d] == '.'
    ensures MatchElem(s, d, Lit(".")) == Some(d + 1)
  {
    assert s[d..d + 1] == ".";
  }

  /** ` +[a-z]` over the blanks from `p` up to the letter at `q`. */
  lemma BlanksLowerAt(s: string, p: nat, q: nat)
    requires p < q < |s| && IsAsciiLower(s[q])
    requires forall j :: p <= j < q ==> s[j] == ' '
    ensures MatchElems(s, p, [Blanks1, Lower1]) == Some([p, q, q + 1])
  {
    RunLengthExact(s, p, {' '}, q);
    assert MatchElem(s, p, Blanks1) == Some(q);
    MatchElemsTwo(s, p, Blanks1, Lower1);
    assert MatchElem(s, q, Lower1) == Some(q + 1);
  }

  /** A lower-case letter after a dot and one or more blanks is upper-cased. */
  lemma AfterDotCapitalised(s: string, d: nat, q: nat)
    requires d + 1 < q < |s| && s[d] == '.' && IsAsciiLower(s[q])
    requires forall j :: d < j < q ==> s[j] == ' '
    ensures |ReplaceAll(s, SentenceRule)| == |s| && ReplaceAll(s, SentenceRule)[q] == ToUpperAscii(s[q])
  {
    forall p | 0 <= p < d && Fires(s, p, SentenceRule)
      ensures End(MatchAt(s, p, SentenceRule).value) <= d
    {
      SentenceMatch(s, p);
    }
    var pre := ScanReaches(s, SentenceRule, 0, d);
    forall m ensures CaseOnly(m, SentenceFix(m)) { SentenceFixCaseOnly(m); }
    CaseRuleFrom(s, SentenceRule, 0);
    CaseRuleFrom(s, SentenceRule, d);
    AfterDotStep(s, d, q);
  }

  /** A lower-case letter at the very start of the text is upper-cased. */
  lemma StartCapitalised(s: string)
    requires |s| > 0 && IsAsciiLower(s[0])
    ensures |ReplaceAll(s, SentenceRule)| > 0 && ReplaceAll(s, SentenceRule)[0] == ToUpperAscii(s[0])
  {
    MatchElemsTwo(s, 0, Start, Lower1);
    assert MatchElem(s, 0, Lower1) == Some(1);
    var m := Match(0, [0, 0, 1]);
    assert MatchAt(s, 0, SentenceRule) == Some(m);
    ReplaceFromFired(s, SentenceRule, 0, m);
    assert s[0..1] == [s[0]];
    assert SentenceFix([s[0]]) == [ToUpperAscii(s[0])];
  }

  /** Capitalisation keeps an upper-cased rune where it is. */
  lemma CapitalizeKeepsUpper(text: string, i: nat)
    requires i < |text| && 'A' <= text[i] <= 'Z'
    ensures Capitalize(text)[i] == text[i]
  {
  }

  /** The first rune of the text, if an ASCII lower-case letter, is
      upper-cased by the capitalisation rules. */
  lemma CapitalizeStart(text: string)
    requires |text| > 0 && IsAsciiLower(text[0])
    ensures |Capitalize(text)| > 0 && Capitalize(text)[0] == ToUpperAscii(text[0])
  {
    var t1 := ReplaceAll(text, SentenceRule);
    StartCapitalised(text);
    var t2 := ReplaceAll(t1, NewlineRule);
    var t3 := ReplaceAll(t2, HeaderRule);
    CapitalizeCaseOnly(text, t1, t2, t3);
    forall m ensures CaseOnly(m, NewlineFix(m)) && CaseOnly(m, HeaderFix(m)) {
      NewlineFixCaseOnly(m);
      HeaderFixCaseOnly(m);
    }
    CaseRuleFrom(t1, NewlineRule, 0);
    CaseRuleFrom(t2, HeaderRule, 0);
    assert t1[0..] == t1 && t2[0..] == t2;
  }

  /** A lower-case letter after a dot and one or more blanks is upper-cased
      by the capitalisation rules. */
  lemma CapitalizeAfterDot(text: string, d: nat, q: nat)
    requires d + 1 < q < |text| && text[d] == '.' && IsAsciiLower(text[q])
    requires forall j :: d < j < q ==> text[j] == ' '
    ensures |Capitalize(text)| == |text| && Capitalize(text)[q] == ToUpperAscii(text[q])
  {
    var t1 := ReplaceAll(text, SentenceRule);
    AfterDotCapitalised(text, d, q);
    var t2 := ReplaceAll(t1, NewlineRule);
    var t3 := ReplaceAll(t2, HeaderRule);
    forall m ensures CaseOnly(m, NewlineFix(m)) && CaseOnly(m, HeaderFix(m)) {
      NewlineFixCaseOnly(m);
      HeaderFixCaseOnly(m);
    }
    CaseRuleFrom(t1, NewlineRule, 0);
    CaseRuleFrom(t2, HeaderRule, 0);
    assert t1[0..] == t1 && t2[0..] == t2;
  }

  /** `finalCleanup`: capitalisation, `\s+` -> " ", `'\s+` -> "'",
      `\s+'` -> "'" and `strings.TrimSpace`. The result has no white space
      at either end, no two adjacent spaces, no space other than the blank
      and no space on either side of an apostrophe. */
  function FinalCleanup(text: string): (r: string)
    ensures IsTrimmed(r) && NoDoubleSpace(r) && SpacesAreBlanks(r)
    ensures NoSpaceAfter(r, {'\''}) && NoSpaceBefore(r, {'\''})
  {
    var c := Capitalize(text);
    var t1 := ReplaceAll(c, CollapseSpaces);
    var t2 := ReplaceAll(t1, NoSpaceAfterApostrophe);
    var t3 := ReplaceAll(t2, NoSpaceBeforeApostrophe);
    FinalCleanupSpacing(c, t1, t2, t3);
    TrimSpace(t3)
  }

  lemma FinalCleanupSpacing(c: string, t1: string, t2: string, t3: string)
    requires t1 == ReplaceAll(c, CollapseSpaces)
    requires t2 == ReplaceAll(t1, NoSpaceAfterApostrophe)
    requires t3 == ReplaceAll(t2, NoSpaceBeforeApostrophe)
    ensures var r := TrimSpace(t3);
      NoDoubleSpace(r) && SpacesAreBlanks(r) && NoSpaceAfter(r, {'\''}) && NoSpaceBefore(r, {'\''})
    ensures |c| > 0 && !IsUnicodeSpace(c[0]) && c[0] != '\'' ==> |TrimSpace(t3)| > 0 && TrimSpace(t3)[0] == c[0]
  {
    CollapseFrom(c, 0);
    AfterApostropheFrom(t1, 0);
    DropBeforeFrom(t2, 0, BeforeApostrophe, {'\''}, {});
    TrimKeepsSpacing(t3, {'\''});
    if |c| > 0 && !IsUnicodeSpace(c[0]) && c[0] != '\'' {
      assert !IsRegexSpace(c[0]);
    }
  }

  /** A text that starts with an ASCII lower-case letter comes out of
      `finalCleanup` starting with that letter upper-cased. */
  lemma FinalCleanupCapitalisesStart(text: string)
    requires |text| > 0 && IsAsciiLower(text[0])
    ensures |FinalCleanup(text)| > 0 && FinalCleanup(text)[0] == ToUpperAscii(text[0])
  {
    var c := Capitalize(text);
    var u := ToUpperAscii(text[0]);
    assert |c| > 0 && c[0] == u by {
      CapitalizeStart(text);
    }
    WordCharIsNotSpace(u);
    var t1 := ReplaceAll(c, CollapseSpaces);
    var t2 := ReplaceAll(t1, NoSpaceAfterApostrophe);
    var t3 := ReplaceAll(t2, NoSpaceBeforeApostrophe);
    FinalCleanupSpacing(c, t1, t2, t3);
    assert FinalCleanup(text) == TrimSpace(t3);
  }

  /** A text that is trimmed, has single blanks only and no apostrophe is
      already in the form the spacing steps of `finalCleanup` produce, so
      those steps leave its capitalisation as it is: a lower-case letter
      after ". " comes out upper-cased, in the same place. */
  lemma FinalCleanupAfterDot(text: string, d: nat)
    requires IsTrimmed(text) && NoDoubleSpace(text) && SpacesAreBlanks(text) && '\'' !in text
    requires d + 2 < |text| && text[d] == '.' && text[d + 1] == ' ' && IsAsciiLower(text[d + 2])
    ensures |FinalCleanup(text)| == |text| && FinalCleanup(text)[d + 2] == ToUpperAscii(text[d + 2])
  {
    var c := Capitalize(text);
    CapitalizeAfterDot(text, d, d + 2);
    CaseOnlyKeepsForm(text, c);
    CollapseIdentity(c);
    NotContainedByMissingChar(c, "'", '\'');
    assert NeedsLiteral(NoSpaceAfterApostrophe, "'");
    assert NeedsLiteral(NoSpaceBeforeApostrophe, "'");
    LiteralAbsentMeansUnchanged(c, NoSpaceAfterApostrophe, "'");
    LiteralAbsentMeansUnchanged(c, NoSpaceBeforeApostrophe, "'");
    assert FinalCleanup(text) == TrimSpace(c);
  }

  /** Upper-casing letters keeps every space where it was and brings in no
      apostrophe. */
  lemma CaseOnlyKeepsForm(a: string, b: string)
    requires CaseOnly(a, b)
    requires IsTrimmed(a) && NoDoubleSpace(a) && SpacesAreBlanks(a) && '\'' !in a
    ensures IsTrimmed(b) && NoDoubleSpace(b) && SpacesAreBlanks(b) && '\'' !in b
  {
    forall i | 0 <= i < |a|
      ensures IsRegexSpace(b[i]) == IsRegexSpace(a[i]) && IsUnicodeSpace(b[i]) == IsUnicodeSpace(a[i])
      ensures b[i] == ' ' <==> a[i] == ' '
      ensures b[i] != '\''
    {
      if b[i] != a[i] {
        WordCharIsNotSpace(b[i]);
        WordCharIsNotSpace(a[i]);
      }
    }
  }
}
