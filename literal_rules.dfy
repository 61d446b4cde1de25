/** Rules built from literal words: the article contractions, the Persian
    and Arabic patches, the fixed Arabic phrases and the phrase dictionary
    of the transliterator all have the shape
      [assertion] w1 \s+ w2 \s+ ... \s+ wn [\s+ | assertion]
    where an assertion is `\b`, `\B` or `^`, and are replaced by a fixed text.
    This module states once, without the regexp engine, where such a rule
    matches and what `ReplaceAllString` makes of a text with it. */
module LiteralRules {
  import opened Text
  import opened Regex
  import opened Spacing

  /** `\b`, `\B` and `^`: the elements that match the empty text. */
  predicate IsAssertion(e: Elem) {
    e.Boundary? || e.NonBoundary? || e.Start?
  }

  /** Whether an assertion holds at `p`. */
  predicate HoldsAt(s: string, p: nat, e: Elem)
    requires p <= |s| && IsAssertion(e)
  {
    if e.Boundary? then AtBoundary(s, p)
    else if e.NonBoundary? then !AtBoundary(s, p)
    else p == 0
  }

  /** `w` occurs in `s` at `p`. */
  predicate OccursAt(s: string, p: nat, w: string) {
    p + |w| <= |s| && forall i :: 0 <= i < |w| ==> s[p + i] == w[i]
  }

  /** What separates two words: `\s+` or `\s*`. */
  datatype Gap = SomeSpaces | AnySpaces

  function GapElem(g: Gap): Elem {
    if g == SomeSpaces then Spaces1 else Spaces0
  }

  /** The gap can start at `q`. */
  predicate GapOpens(s: string, q: nat, g: Gap)
    requires q <= |s|
  {
    g == AnySpaces || (q < |s| && IsRegexSpace(s[q]))
  }

  /** `w1 gap w2 gap ... gap wn`. */
  function WordsElems(ws: seq<string>, g: Gap): seq<Elem>
    requires |ws| > 0
    decreases |ws|
  {
    if |ws| == 1 then [Lit(ws[0])] else [Lit(ws[0]), GapElem(g)] + WordsElems(ws[1..], g)
  }

  /** The end of the run of `\s` runes that starts at `q`. */
  function SkipSpaces(s: string, q: nat): (e: nat)
    requires q <= |s|
    ensures q <= e <= |s|
    decreases |s| - q
  {
    if q < |s| && IsRegexSpace(s[q]) then SkipSpaces(s, q + 1) else q
  }

  /** `SkipSpaces` ends where `\s+` and `\s*` stop. */
  lemma {:induction false} SkipSpacesIsRun(s: string, q: nat)
    requires q <= |s|
    ensures SkipSpaces(s, q) == q + SpaceRunAt(s, q)
    decreases |s| - q
  {
    if q < |s| && IsRegexSpace(s[q]) {
      SkipSpacesIsRun(s, q + 1);
      RunLengthNext(s, q, RegexSpaces);
    }
  }

  /** Where the words end when they occur one after the other from `p`,
      each pair separated by a gap (the whole run of spaces between two
      words is taken); `None` where they do not. */
  function WordsEndAt(s: string, p: nat, ws: seq<string>, g: Gap): (r: Option<nat>)
    requires p <= |s| && |ws| > 0
    ensures r.Some? ==> p + |ws[0]| <= r.value <= |s|
    decreases |ws|
  {
    var q := p + |ws[0]|;
    if !OccursAt(s, p, ws[0]) then None
    else if |ws| == 1 then Some(q)
    else if GapOpens(s, q, g) then WordsEndAt(s, SkipSpaces(s, q), ws[1..], g)
    else None
  }

  /** What may come before the words: nothing or one assertion. */
  predicate IsLead(lead: seq<Elem>) {
    |lead| == 0 || (|lead| == 1 && IsAssertion(lead[0]))
  }

  /** What may come after the words: nothing, `\s+` or one assertion. */
  predicate IsTrail(trail: seq<Elem>) {
    |trail| == 0 || (|trail| == 1 && (trail[0] == Spaces1 || IsAssertion(trail[0])))
  }

  predicate LeadHolds(s: string, p: nat, lead: seq<Elem>)
    requires p <= |s| && IsLead(lead)
  {
    |lead| == 0 || HoldsAt(s, p, lead[0])
  }

  /** Where the trailing element ends when it matches at `e`. */
  function TrailEnd(s: string, e: nat, trail: seq<Elem>): (r: Option<nat>)
    requires e <= |s| && IsTrail(trail)
    ensures r.Some? ==> e <= r.value <= |s|
  {
    if |trail| == 0 then Some(e)
    else if trail[0] == Spaces1 then
      (if e < |s| && IsRegexSpace(s[e]) then Some(SkipSpaces(s, e)) else None)
    else if HoldsAt(s, e, trail[0]) then Some(e)
    else None
  }

  /** A literal pattern: lead, words separated by gaps, trail. */
  datatype Pattern = Pattern(lead: seq<Elem>, words: seq<string>, gap: Gap, trail: seq<Elem>)

  predicate ValidPattern(pt: Pattern) {
    IsLead(pt.lead) && |pt.words| > 0 && |pt.words[0]| > 0 && IsTrail(pt.trail)
  }

  function Elems(pt: Pattern): seq<Elem>
    requires |pt.words| > 0
  {
    pt.lead + WordsElems(pt.words, pt.gap) + pt.trail
  }

  /** The rule `ReplaceAllString(pattern, out)`. */
  function LiteralRule(pt: Pattern, out: string): Rule
    requires |pt.words| > 0
  {
    Rule([Elems(pt)], Template([Text(out)]))
  }

  /** The pattern occurs at `p`. */
  predicate PatternAt(s: string, p: nat, pt: Pattern)
    requires p <= |s| && ValidPattern(pt)
  {
    var w := WordsEndAt(s, p, pt.words, pt.gap);
    LeadHolds(s, p, pt.lead) && w.Some? && TrailEnd(s, w.value, pt.trail).Some?
  }

  function PatternEnd(s: string, p: nat, pt: Pattern): (e: nat)
    requires p <= |s| && ValidPattern(pt) && PatternAt(s, p, pt)
    ensures p < e <= |s|
  {
    TrailEnd(s, WordsEndAt(s, p, pt.words, pt.gap).value, pt.trail).value
  }

  /** The text `ReplaceAllString` produces from `p` on, defined directly on
      the occurrences of the pattern: the leftmost occurrence is replaced,
      and the search goes on after it. */
  function RewriteFrom(s: string, p: nat, pt: Pattern, out: string): string
    requires p <= |s| && ValidPattern(pt)
    decreases |s| - p
  {
    if p == |s| then ""
    else if PatternAt(s, p, pt) then out + RewriteFrom(s, PatternEnd(s, p, pt), pt, out)
    else [s[p]] + RewriteFrom(s, p + 1, pt, out)
  }

  function Rewrite(s: string, pt: Pattern, out: string): string
    requires ValidPattern(pt)
  {
    RewriteFrom(s, 0, pt, out)
  }

  // ---------------------------------------------------------------------
  // The engine agrees with the direct definition

  lemma AssertionMatch(s: string, p: nat, e: Elem)
    requires p <= |s| && IsAssertion(e)
    ensures MatchElem(s, p, e) == if HoldsAt(s, p, e) then Some(p) else None
  {
  }

  lemma LeadMatch(s: string, p: nat, lead: seq<Elem>)
    requires p <= |s| && IsLead(lead)
    ensures var r := MatchElems(s, p, lead);
      (r.Some? <==> LeadHolds(s, p, lead)) && (r.Some? ==> Last(r.value) == p)
  {
    if |lead| == 1 {
      MatchElemsOne(s, p, lead[0]);
      AssertionMatch(s, p, lead[0]);
    }
  }

  lemma TrailMatch(s: string, e: nat, trail: seq<Elem>)
    requires e <= |s| && IsTrail(trail)
    ensures var r := MatchElems(s, e, trail);
      (r.Some? <==> TrailEnd(s, e, trail).Some?)
      && (r.Some? ==> Last(r.value) == TrailEnd(s, e, trail).value)
  {
    if |trail| == 1 {
      MatchElemsOne(s, e, trail[0]);
      if trail[0] == Spaces1 {
        if e < |s| {
          SkipSpacesIsRun(s, e);
        }
      } else {
        AssertionMatch(s, e, trail[0]);
      }
    }
  }

  lemma LiteralMatch(s: string, p: nat, w: string)
    requires p <= |s|
    ensures MatchElem(s, p, Lit(w)) == if OccursAt(s, p, w) then Some(p + |w|) else None
  {
    if p + |w| <= |s| {
      var t := s[p..p + |w|];
      assert forall i :: 0 <= i < |w| ==> t[i] == s[p + i];
      assert OccursAt(s, p, w) <==> t == w;
    }
  }

  /** Where a list of elements ends, if it matches. */
  function EndOf(r: Option<seq<nat>>): Option<nat> {
    if r.Some? && |r.value| > 0 then Some(Last(r.value)) else None
  }

  /** `w1 gap ... gap wn` matches at `p` exactly where the words occur, and
      ends where they end. */
  lemma {:induction false} WordsMatch(s: string, p: nat, ws: seq<string>, g: Gap)
    requires p <= |s| && |ws| > 0
    ensures EndOf(MatchElems(s, p, WordsElems(ws, g))) == WordsEndAt(s, p, ws, g)
    decreases |ws|
  {
    if |ws| == 1 {
      WordsMatchOne(s, p, ws, g);
    } else {
      var q := p + |ws[0]|;
      if OccursAt(s, p, ws[0]) && GapOpens(s, q, g) {
        WordsMatch(s, SkipSpaces(s, q), ws[1..], g);
      }
      WordsMatchStep(s, p, ws, g);
    }
  }

  /** The first word and gap, then the rest as the induction hypothesis
      states it. */
  lemma WordsMatchStep(s: string, p: nat, ws: seq<string>, g: Gap)
    requires p <= |s| && |ws| > 1
    requires var q := p + |ws[0]|;
      OccursAt(s, p, ws[0]) && GapOpens(s, q, g) ==>
        EndOf(MatchElems(s, SkipSpaces(s, q), WordsElems(ws[1..], g))) == WordsEndAt(s, SkipSpaces(s, q), ws[1..], g)
    ensures EndOf(MatchElems(s, p, WordsElems(ws, g))) == WordsEndAt(s, p, ws, g)
  {
    WordsMatchHead(s, p, ws, g);
    WordsEndAtUnfold(s, p, ws, g);
  }

  /** The first word and gap of the elements, then the rest. */
  lemma WordsMatchHead(s: string, p: nat, ws: seq<string>, g: Gap)
    requires p <= |s| && |ws| > 1
    ensures var q := p + |ws[0]|;
      EndOf(MatchElems(s, p, WordsElems(ws, g))) ==
        if OccursAt(s, p, ws[0]) && GapOpens(s, q, g)
        then EndOf(MatchElems(s, SkipSpaces(s, q), WordsElems(ws[1..], g))) else None
  {
    WordsElemsCons(ws, g);
    WordThenRest(s, p, ws[0], g, WordsElems(ws[1..], g), WordsElems(ws, g));
  }


  lemma WordsElemsCons(ws: seq<string>, g: Gap)
    requires |ws| > 1
    ensures WordsElems(ws, g) == [Lit(ws[0]), GapElem(g)] + WordsElems(ws[1..], g)
  {
  }

  lemma WordsEndAtUnfold(s: string, p: nat, ws: seq<string>, g: Gap)
    requires p <= |s| && |ws| > 1
    ensures var q := p + |ws[0]|;
      WordsEndAt(s, p, ws, g) ==
        if OccursAt(s, p, ws[0]) && GapOpens(s, q, g)
        then WordsEndAt(s, SkipSpaces(s, q), ws[1..], g) else None
  {
  }

  lemma WordsMatchOne(s: string, p: nat, ws: seq<string>, g: Gap)
    requires p <= |s| && |ws| == 1
    ensures EndOf(MatchElems(s, p, WordsElems(ws, g))) == WordsEndAt(s, p, ws, g)
  {
    assert WordsElems(ws, g) == [Lit(ws[0])];
    LiteralMatch(s, p, ws[0]);
    MatchElemsOne(s, p, Lit(ws[0]));
  }

  /** A word and a gap, followed by more elements. */
  lemma WordThenRest(s: string, p: nat, w: string, g: Gap, rest: seq<Elem>, elems: seq<Elem>)
    requires p <= |s| && elems == [Lit(w), GapElem(g)] + rest
    ensures var q := p + |w|;
      EndOf(MatchElems(s, p, elems)) ==
        if OccursAt(s, p, w) && GapOpens(s, q, g)
        then EndOf(MatchElems(s, SkipSpaces(s, q), rest)) else None
  {
    MatchElemsAppend(s, p, [Lit(w), GapElem(g)], rest);
    WordThenGap(s, p, w, g);
  }

  /** A word and a gap at `p`. */
  lemma WordThenGap(s: string, p: nat, w: string, g: Gap)
    requires p <= |s|
    ensures var q := p + |w|;
      var r := MatchElems(s, p, [Lit(w), GapElem(g)]);
      (r.Some? <==> OccursAt(s, p, w) && GapOpens(s, q, g))
      && (r.Some? ==> Last(r.value) == SkipSpaces(s, q))
  {
    var q := p + |w|;
    LiteralMatch(s, p, w);
    MatchElemsTwo(s, p, Lit(w), GapElem(g));
    if OccursAt(s, p, w) {
      SkipSpacesIsRun(s, q);
      if GapOpens(s, q, g) {
        assert MatchElem(s, q, GapElem(g)) == Some(q + SpaceRunAt(s, q));
      } else {
        assert MatchElem(s, q, GapElem(g)).None?;
      }
    }
  }

  /** The rule's only alternative matches at `p` exactly where the pattern
      occurs, and ends where the pattern ends. */
  lemma PatternMatch(s: string, p: nat, pt: Pattern)
    requires p <= |s| && ValidPattern(pt)
    ensures var r := MatchElems(s, p, Elems(pt));
      (r.Some? <==> PatternAt(s, p, pt)) && (r.Some? ==> Last(r.value) == PatternEnd(s, p, pt))
  {
    var ws := WordsElems(pt.words, pt.gap);
    LeadMatch(s, p, pt.lead);
    MatchElemsAppend(s, p, pt.lead, ws);
    MatchElemsAppend(s, p, pt.lead + ws, pt.trail);
    WordsMatch(s, p, pt.words, pt.gap);
    var w := WordsEndAt(s, p, pt.words, pt.gap);
    if w.Some? {
      TrailMatch(s, w.value, pt.trail);
    }
  }

  /** One step of `ReplaceAllString`: an occurrence of the pattern at `p` is
      replaced by `out`; otherwise the rune at `p` is copied. */
  lemma PatternStep(s: string, p: nat, pt: Pattern, out: string)
    requires p < |s| && ValidPattern(pt)
    ensures ReplaceFrom(s, LiteralRule(pt, out), p) ==
      if PatternAt(s, p, pt) then out + ReplaceFrom(s, LiteralRule(pt, out), PatternEnd(s, p, pt))
      else [s[p]] + ReplaceFrom(s, LiteralRule(pt, out), p + 1)
  {
    var rule := LiteralRule(pt, out);
    PatternMatch(s, p, pt);
    MatchAtOnly(s, p, rule);
    if PatternAt(s, p, pt) {
      var b := MatchElems(s, p, Elems(pt)).value;
      assert Expand(s, b, [Text(out)]) == out;
      ReplaceFromFired(s, rule, p, Match(0, b));
    } else {
      ReplaceFromCopied(s, rule, p);
    }
  }

  /** `ReplaceAllString` with a literal rule is the direct rewrite. */
  lemma {:induction false} RuleIsRewriteFrom(s: string, p: nat, pt: Pattern, out: string)
    requires p <= |s| && ValidPattern(pt)
    ensures ReplaceFrom(s, LiteralRule(pt, out), p) == RewriteFrom(s, p, pt, out)
    decreases |s| - p
  {
    if p < |s| {
      var rule := LiteralRule(pt, out);
      PatternStep(s, p, pt, out);
      if PatternAt(s, p, pt) {
        var e := PatternEnd(s, p, pt);
        RuleIsRewriteFrom(s, e, pt, out);
        assert ReplaceFrom(s, rule, p) == out + ReplaceFrom(s, rule, e);
        assert RewriteFrom(s, p, pt, out) == out + RewriteFrom(s, e, pt, out);
      } else {
        RuleIsRewriteFrom(s, p + 1, pt, out);
        assert ReplaceFrom(s, rule, p) == [s[p]] + ReplaceFrom(s, rule, p + 1);
        assert RewriteFrom(s, p, pt, out) == [s[p]] + RewriteFrom(s, p + 1, pt, out);
      }
    }
  }

  lemma RuleIsRewrite(s: string, pt: Pattern, out: string)
    requires ValidPattern(pt)
    ensures ReplaceAll(s, LiteralRule(pt, out)) == Rewrite(s, pt, out)
  {
    RuleIsRewriteFrom(s, 0, pt, out);
  }

  // ---------------------------------------------------------------------
  // Properties of the rewrite

  /** Where the pattern does not occur, nothing changes. */
  lemma {:induction false} RewriteWithoutOccurrence(s: string, p: nat, pt: Pattern, out: string)
    requires p <= |s| && ValidPattern(pt)
    requires forall q :: p <= q < |s| ==> !PatternAt(s, q, pt)
    ensures RewriteFrom(s, p, pt, out) == s[p..]
    decreases |s| - p
  {
    if p < |s| {
      RewriteWithoutOccurrence(s, p + 1, pt, out);
      assert s[p..] == [s[p]] + s[p + 1..];
    }
  }

  /** A pattern of one word whose replacement is that same word, with no
      trailing spaces, leaves every text as it is. */
  lemma {:induction false} SelfRewriteIsIdentity(s: string, p: nat, pt: Pattern)
    requires p <= |s| && ValidPattern(pt) && |pt.words| == 1
    requires |pt.trail| == 0 || IsAssertion(pt.trail[0])
    ensures RewriteFrom(s, p, pt, pt.words[0]) == s[p..]
    decreases |s| - p
  {
    if p < |s| {
      var w := pt.words[0];
      if PatternAt(s, p, pt) {
        var e := SelfMatchSpan(s, p, pt);
        SelfRewriteIsIdentity(s, e, pt);
        assert s[p..] == s[p..e] + s[e..];
      } else {
        SelfRewriteIsIdentity(s, p + 1, pt);
        assert s[p..] == [s[p]] + s[p + 1..];
      }
    }
  }

  /** An occurrence of a one-word pattern with no trailing spaces spans
      exactly its word. */
  lemma SelfMatchSpan(s: string, p: nat, pt: Pattern) returns (e: nat)
    requires p <= |s| && ValidPattern(pt) && |pt.words| == 1 && PatternAt(s, p, pt)
    requires |pt.trail| == 0 || IsAssertion(pt.trail[0])
    ensures e == PatternEnd(s, p, pt) == p + |pt.words[0]| && s[p..e] == pt.words[0]
  {
    e := PatternEnd(s, p, pt);
    assert WordsEndAt(s, p, pt.words, pt.gap) == Some(p + |pt.words[0]|);
  }

  /** A pattern of one rune with no lead or trail, replaced by one rune:
      every occurrence of the rune is replaced and nothing else changes. */
  lemma {:induction false} RuneRewrite(s: string, p: nat, c: char, d: char)
    requires p <= |s|
    ensures var r := RewriteFrom(s, p, Pattern([], [[c]], SomeSpaces, []), [d]);
      |r| == |s| - p && forall i :: p <= i < |s| ==> r[i - p] == if s[i] == c then d else s[i]
    decreases |s| - p
  {
    if p < |s| {
      var pt := Pattern([], [[c]], SomeSpaces, []);
      assert PatternAt(s, p, pt) <==> s[p] == c by {
        assert OccursAt(s, p, [c]) <==> s[p..p + 1] == [c];
        assert s[p..p + 1] == [s[p]];
      }
      var rest := RewriteFrom(s, p + 1, pt, [d]);
      RuneRewrite(s, p + 1, c, d);
      var x := if s[p] == c then d else s[p];
      assert RewriteFrom(s, p, pt, [d]) == [x] + rest by {
        if s[p] == c {
          assert PatternEnd(s, p, pt) == p + 1;
        }
      }
      ConsPointwise(s, p, x, rest, c, d);
    }
  }

  lemma ConsPointwise(s: string, p: nat, x: char, rest: string, c: char, d: char)
    requires p < |s| && x == (if s[p] == c then d else s[p])
    requires |rest| == |s| - (p + 1)
    requires forall i :: p + 1 <= i < |s| ==> rest[i - (p + 1)] == if s[i] == c then d else s[i]
    ensures var r := [x] + rest;
      |r| == |s| - p && forall i :: p <= i < |s| ==> r[i - p] == if s[i] == c then d else s[i]
  {
    var r := [x] + rest;
    assert forall j :: 1 <= j < |r| ==> r[j] == rest[j - 1];
  }
}
