/** `preserveFormatting` (transliterator.go:267-276): a space after the
    markdown header marks at the start of the text, and no space between an
    asterisk and a parenthesis. */
module Formatting {
  import opened Text
  import opened Regex
  import opened Spacing
  import opened LiteralRules

  /** `#{1,6}`. */
  const HeaderMarks: Elem := Repeat(HashClass, 1, Some(6))

  /** `^(#{1,6})\s*` -> "$1 ". */
  const HeaderSpacing: Rule := Rule([[Start, HeaderMarks, Spaces0]], Template([Group(1), Text(" ")]))

  /** `\*\s*\(` -> "*(" and `\)\s*\*` -> ")*". */
  const StarParenPattern: Pattern := Pattern([], ["*", "("], AnySpaces, [])
  const ParenStarPattern: Pattern := Pattern([], [")", "*"], AnySpaces, [])

  function PreserveFormatting(text: string): string {
    var t := ReplaceAll(text, HeaderSpacing);
    var u := ReplaceAll(t, LiteralRule(StarParenPattern, "*("));
    ReplaceAll(u, LiteralRule(ParenStarPattern, ")*"))
  }

  /** Number of header marks the rule takes: the `#` runes at the start of
      the text, at most six. */
  function MarkCount(s: string): nat {
    RunLength(s, 0, {'#'}, Some(6))
  }

  // ---------------------------------------------------------------------
  // The header rule

  /** `^` fails away from the text start, so the rule never fires there. */
  lemma HeaderOnlyAtStart(s: string, p: nat)
    requires 0 < p <= |s|
    ensures MatchAt(s, p, HeaderSpacing).None?
  {
    MatchAtOnly(s, p, HeaderSpacing);
    MatchElemsCons(s, p, Start, [HeaderMarks, Spaces0]);
    assert [Start] + [HeaderMarks, Spaces0] == HeaderSpacing.alts[0];
  }

  lemma HeaderNoMatchAfterStart(s: string, p: nat)
    requires 0 < p <= |s|
    ensures ReplaceFrom(s, HeaderSpacing, p) == s[p..]
  {
    forall q | p <= q < |s|
      ensures !Fires(s, q, HeaderSpacing)
    {
      HeaderOnlyAtStart(s, q);
    }
    ReplaceFromNoMatch(s, HeaderSpacing, p);
  }

  /** At the start, the rule matches the marks and the spaces after them. */
  lemma HeaderMatch(s: string)
    ensures var h := MarkCount(s);
      var e := h + SpaceRunAt(s, h);
      (h > 0 ==> MatchAt(s, 0, HeaderSpacing) == Some(Match(0, [0, 0, h, e])))
      && (h == 0 ==> MatchAt(s, 0, HeaderSpacing).None?)
  {
    var h := MarkCount(s);
    MatchAtOnly(s, 0, HeaderSpacing);
    MatchElemsCons(s, 0, Start, [HeaderMarks, Spaces0]);
    assert [Start] + [HeaderMarks, Spaces0] == HeaderSpacing.alts[0];
    assert MatchElem(s, 0, Start) == Some(0);
    MatchElemsTwo(s, 0, HeaderMarks, Spaces0);
    if h > 0 {
      var e := h + SpaceRunAt(s, h);
      assert MatchElem(s, 0, HeaderMarks) == Some(h);
      assert MatchElem(s, h, Spaces0) == Some(e);
      assert MatchElems(s, 0, [HeaderMarks, Spaces0]) == Some([0, h, e]);
      assert [0] + [0, h, e] == [0, 0, h, e];
    } else {
      assert MatchElem(s, 0, HeaderMarks).None?;
    }
  }

  /** `$1 ` renders the marks followed by one blank. */
  lemma HeaderRender(s: string, m: Match)
    requires ValidMatch(s, m) && |m.bounds| == 4
    ensures Render(s, m, HeaderSpacing.replacement) == s[m.bounds[1]..m.bounds[2]] + " "
  {
    var ps := [Group(1), Text(" ")];
    assert ps[1..] == [Text(" ")] && ps[1..][1..] == [];
    assert Expand(s, m.bounds, ps[1..]) == " ";
  }

  /** `^(#{1,6})\s*` -> "$1 ": text that starts with header marks gets
      exactly one blank after the first (at most six) of them, in place of
      the spaces that followed; any other text is left as it is. */
  lemma HeaderSpacingEffect(s: string)
    ensures var h := MarkCount(s);
      var e := h + SpaceRunAt(s, h);
      ReplaceAll(s, HeaderSpacing) == if h > 0 then s[..h] + " " + s[e..] else s
  {
    var h := MarkCount(s);
    var e := h + SpaceRunAt(s, h);
    HeaderMatch(s);
    if |s| == 0 {
    } else if h > 0 {
      var m := Match(0, [0, 0, h, e]);
      HeaderRender(s, m);
      ReplaceFromFired(s, HeaderSpacing, 0, m);
      if e < |s| {
        HeaderNoMatchAfterStart(s, e);
      }
    } else {
      ReplaceFromCopied(s, HeaderSpacing, 0);
      HeaderNoMatchAfterStart(s, 1);
      assert s == [s[0]] + s[1..];
    }
  }

  // ---------------------------------------------------------------------
  // The parenthesis rules

  /** `\*\s*\(` -> "*(" replaces each asterisk that is followed, after
      spaces, by an opening parenthesis, together with those spaces, by
      "*(", from left to right; `\)\s*\*` -> ")*" does the same for a
      closing parenthesis followed by an asterisk. */
  lemma ParenRules(s: string)
    ensures ReplaceAll(s, LiteralRule(StarParenPattern, "*(")) == Rewrite(s, StarParenPattern, "*(")
    ensures ReplaceAll(s, LiteralRule(ParenStarPattern, ")*")) == Rewrite(s, ParenStarPattern, ")*")
  {
    RuleIsRewrite(s, StarParenPattern, "*(");
    RuleIsRewrite(s, ParenStarPattern, ")*");
  }
}
