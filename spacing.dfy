/** The whitespace rules shared by the post-processor and the final cleanup
    (transliterator.go:226-230, 500-504) and by the mixed-character cleaner
    (cmd/fix_mixed_chars/main.go:303), with what each guarantees. */
module Spacing {
  import opened Text
  import opened Regex

  /** `\s+` and `\s*`. */
  const Spaces1: Elem := Repeat(SpaceClass, 1, None)
  const Spaces0: Elem := Repeat(SpaceClass, 0, None)

  /** `\s+` -> " ". */
  const CollapseSpaces: Rule := Rule([[Spaces1]], Template([Text(" ")]))

  /** `'\s+` -> "'". */
  const NoSpaceAfterApostrophe: Rule := Rule([[Lit("'"), Spaces1]], Template([Text("'")]))

  /** `\s+'` -> "'". */
  const NoSpaceBeforeApostrophe: Rule := Rule([[Spaces1, Lit("'")]], Template([Text("'")]))

  /** `\s*-\s*` -> "-". */
  const TightHyphens: Rule := Rule([[Spaces0, Lit("-"), Spaces0]], Template([Text("-")]))

  /** `\s+([,.!?;:])` -> "$1". */
  const NoSpaceBeforePunctuation: Rule :=
    Rule([[Spaces1, Repeat(PunctClass, 1, Some(1))]], Template([Group(1)]))

  function SpaceRunAt(s: string, pos: nat): (n: nat)
    requires pos <= |s|
    ensures pos + n <= |s|
    ensures pos + n < |s| ==> !IsRegexSpace(s[pos + n])
    ensures n > 0 <==> pos < |s| && IsRegexSpace(s[pos])
  {
    RunLength(s, pos, RegexSpaces, None)
  }

  // ---------------------------------------------------------------------
  // One step of each scan

  /** One step of the `\s+` -> " " scan: a run of spaces becomes one blank,
      any other rune is copied. */
  lemma CollapseStep(s: string, pos: nat) returns (c: char, next: nat)
    requires pos < |s|
    ensures pos < next <= |s|
    ensures ReplaceFrom(s, CollapseSpaces, pos) == [c] + ReplaceFrom(s, CollapseSpaces, next)
    ensures !IsRegexSpace(s[pos]) ==> c == s[pos] && next == pos + 1
    ensures IsRegexSpace(s[pos]) ==> c == ' ' && next == pos + SpaceRunAt(s, pos)
    ensures IsRegexSpace(s[pos]) && next < |s| ==> !IsRegexSpace(s[next])
  {
    c, next := CollapseRune(s, pos), CollapseNext(s, pos);
    CollapseStepOutput(s, pos);
  }

  /** The rune one step of the collapse writes at `pos`. */
  function CollapseRune(s: string, pos: nat): (c: char)
    requires pos < |s|
    ensures !IsRegexSpace(s[pos]) ==> c == s[pos]
    ensures IsRegexSpace(s[pos]) ==> c == ' '
  {
    if IsRegexSpace(s[pos]) then ' ' else s[pos]
  }

  /** Where the collapse goes on after `pos`: past the run of spaces there,
      or to the next rune. */
  function CollapseNext(s: string, pos: nat): (next: nat)
    requires pos < |s|
    ensures pos < next <= |s|
    ensures !IsRegexSpace(s[pos]) ==> next == pos + 1
    ensures IsRegexSpace(s[pos]) ==> next == pos + SpaceRunAt(s, pos)
    ensures IsRegexSpace(s[pos]) && next < |s| ==> !IsRegexSpace(s[next])
  {
    if IsRegexSpace(s[pos]) then pos + SpaceRunAt(s, pos) else pos + 1
  }

  lemma CollapseStepOutput(s: string, pos: nat)
    requires pos < |s|
    ensures ReplaceFrom(s, CollapseSpaces, pos)
      == [CollapseRune(s, pos)] + ReplaceFrom(s, CollapseSpaces, CollapseNext(s, pos))
  {
    if IsRegexSpace(s[pos]) {
      CollapseAtSpace(s, pos);
    } else {
      CollapseAtOther(s, pos);
    }
  }

  lemma CollapseAtSpace(s: string, pos: nat)
    requires pos < |s| && IsRegexSpace(s[pos])
    ensures SpaceRunAt(s, pos) > 0
    ensures ReplaceFrom(s, CollapseSpaces, pos) == [' '] + ReplaceFrom(s, CollapseSpaces, pos + SpaceRunAt(s, pos))
  {
    var n := SpaceRunAt(s, pos);
    assert MatchElem(s, pos, Spaces1) == Some(pos + n);
    MatchElemsOne(s, pos, Spaces1);
    assert MatchAt(s, pos, CollapseSpaces) == Some(Match(0, [pos, pos + n]));
    assert Expand(s, [pos, pos + n], [Text(" ")]) == " ";
  }

  lemma CollapseAtOther(s: string, pos: nat)
    requires pos < |s| && !IsRegexSpace(s[pos])
    ensures ReplaceFrom(s, CollapseSpaces, pos) == [s[pos]] + ReplaceFrom(s, CollapseSpaces, pos + 1)
  {
    assert MatchElem(s, pos, Spaces1).None?;
    MatchElemsOne(s, pos, Spaces1);
    assert MatchAt(s, pos, CollapseSpaces).None?;
  }

  /** After a collapse no two spaces are adjacent and every space is a
      blank; the output starts with a space exactly when the input does. */
  lemma {:induction false} CollapseFrom(s: string, pos: nat)
    requires pos <= |s|
    ensures var out := ReplaceFrom(s, CollapseSpaces, pos);
      NoDoubleSpace(out) && SpacesAreBlanks(out)
      && (pos < |s| ==> |out| > 0 && (IsRegexSpace(out[0]) <==> IsRegexSpace(s[pos])))
      && (pos < |s| && !IsRegexSpace(s[pos]) ==> out[0] == s[pos])
    decreases |s| - pos
  {
    if pos < |s| {
      var c, next := CollapseStep(s, pos);
      var rest := ReplaceFrom(s, CollapseSpaces, next);
      CollapseFrom(s, next);
      ConsSpacing(c, rest, {});
    }
  }

  /** `\s+` -> " " leaves no run of two spaces and no space but the blank. */
  lemma CollapseSpacing(s: string)
    ensures NoDoubleSpace(ReplaceAll(s, CollapseSpaces))
    ensures SpacesAreBlanks(ReplaceAll(s, CollapseSpaces))
  {
    CollapseFrom(s, 0);
  }

  /** The collapse writes only runes of the text and blanks. */
  lemma {:induction false} CollapseRunesFrom(s: string, pos: nat)
    requires pos <= |s|
    ensures forall c :: c in ReplaceFrom(s, CollapseSpaces, pos) ==> c in s || c == ' '
    decreases |s| - pos
  {
    if pos < |s| {
      var c, next := CollapseStep(s, pos);
      CollapseRunesFrom(s, next);
    }
  }

  /** Text whose spaces are single blanks is left as it is. */
  lemma {:induction false} CollapseIdentityFrom(s: string, pos: nat)
    requires pos <= |s| && NoDoubleSpace(s) && SpacesAreBlanks(s)
    ensures ReplaceFrom(s, CollapseSpaces, pos) == s[pos..]
    decreases |s| - pos
  {
    if pos < |s| {
      var c, next := CollapseStep(s, pos);
      if IsRegexSpace(s[pos]) {
        assert pos + 1 < |s| ==> !IsRegexSpace(s[pos + 1]);
        assert SpaceRunAt(s, pos) == 1;
      }
      CollapseIdentityFrom(s, pos + 1);
      assert s[pos..] == [s[pos]] + s[pos + 1..];
    }
  }

  lemma CollapseIdentity(s: string)
    requires NoDoubleSpace(s) && SpacesAreBlanks(s)
    ensures ReplaceAll(s, CollapseSpaces) == s
  {
    CollapseIdentityFrom(s, 0);
  }

  // ---------------------------------------------------------------------
  // `'\s+` -> "'"

  /** Where `'\s+` matches: an apostrophe followed by a run of spaces. */
  lemma AfterApostropheMatch(s: string, pos: nat)
    requires pos < |s|
    ensures s[pos] == '\'' && pos + 1 < |s| && IsRegexSpace(s[pos + 1]) ==>
      MatchAt(s, pos, NoSpaceAfterApostrophe) == Some(Match(0, [pos, pos + 1, pos + 1 + SpaceRunAt(s, pos + 1)]))
    ensures !(s[pos] == '\'' && pos + 1 < |s| && IsRegexSpace(s[pos + 1])) ==>
      MatchAt(s, pos, NoSpaceAfterApostrophe).None?
  {
    MatchAtOnly(s, pos, NoSpaceAfterApostrophe);
    ApostropheSpacesElems(s, pos);
  }

  /** `'\s+` as a list of elements at `pos`. */
  lemma ApostropheSpacesElems(s: string, pos: nat)
    requires pos < |s|
    ensures s[pos] == '\'' && pos + 1 < |s| && IsRegexSpace(s[pos + 1]) ==>
      MatchElems(s, pos, [Lit("'"), Spaces1]) == Some([pos, pos + 1, pos + 1 + SpaceRunAt(s, pos + 1)])
    ensures !(s[pos] == '\'' && pos + 1 < |s| && IsRegexSpace(s[pos + 1])) ==>
      MatchElems(s, pos, [Lit("'"), Spaces1]).None?
  {
    MatchElemsTwo(s, pos, Lit("'"), Spaces1);
    assert s[pos..pos + 1][0] == s[pos];
    if s[pos] == '\'' {
      assert s[pos..pos + 1] == "'";
      assert MatchElem(s, pos, Lit("'")) == Some(pos + 1);
      if pos + 1 < |s| && IsRegexSpace(s[pos + 1]) {
        assert MatchElem(s, pos + 1, Spaces1) == Some(pos + 1 + SpaceRunAt(s, pos + 1));
      }
    } else {
      assert MatchElem(s, pos, Lit("'")).None?;
    }
  }

  /** One step of the `'\s+` scan: the rune at `pos` is always kept; after an
      apostrophe the spaces that follow are skipped. */
  lemma AfterApostropheStep(s: string, pos: nat) returns (next: nat)
    requires pos < |s|
    ensures pos < next <= |s|
    ensures ReplaceFrom(s, NoSpaceAfterApostrophe, pos) == [s[pos]] + ReplaceFrom(s, NoSpaceAfterApostrophe, next)
    ensures next > pos + 1 ==> s[pos] == '\''
    ensures s[pos] == '\'' && next < |s| ==> !IsRegexSpace(s[next])
  {
    next := ApostropheNext(s, pos);
    ApostropheStepOutput(s, pos);
  }

  /** An apostrophe followed by a space: `'\s+` matches there. */
  predicate SpaceAfterApostrophe(s: string, pos: nat)
    requires pos < |s|
  {
    s[pos] == '\'' && pos + 1 < |s| && IsRegexSpace(s[pos + 1])
  }

  /** Where the `'\s+` scan goes on after `pos`: past the spaces after an
      apostrophe, or to the next rune. */
  function ApostropheNext(s: string, pos: nat): (next: nat)
    requires pos < |s|
    ensures pos < next <= |s|
    ensures next > pos + 1 ==> s[pos] == '\''
    ensures s[pos] == '\'' && next < |s| ==> !IsRegexSpace(s[next])
  {
    if SpaceAfterApostrophe(s, pos) then pos + 1 + SpaceRunAt(s, pos + 1) else pos + 1
  }

  lemma ApostropheStepOutput(s: string, pos: nat)
    requires pos < |s|
    ensures ReplaceFrom(s, NoSpaceAfterApostrophe, pos)
      == [s[pos]] + ReplaceFrom(s, NoSpaceAfterApostrophe, ApostropheNext(s, pos))
  {
    AfterApostropheMatch(s, pos);
    if SpaceAfterApostrophe(s, pos) {
      var b := [pos, pos + 1, pos + 1 + SpaceRunAt(s, pos + 1)];
      ReplaceFromFiredText(s, NoSpaceAfterApostrophe, pos, b, "'");
      assert [s[pos]] == "'";
    } else {
      ReplaceFromCopied(s, NoSpaceAfterApostrophe, pos);
    }
  }

  /** After `'\s+` -> "'" no space follows an apostrophe; the rule keeps
      spaces single and blank, and the output starts with the input's rune. */
  lemma {:induction false} AfterApostropheFrom(s: string, pos: nat)
    requires pos <= |s|
    ensures var out := ReplaceFrom(s, NoSpaceAfterApostrophe, pos);
      NoSpaceAfter(out, {'\''})
      && (NoDoubleSpace(s) ==> NoDoubleSpace(out))
      && (SpacesAreBlanks(s) ==> SpacesAreBlanks(out))
      && (pos < |s| ==> |out| > 0 && out[0] == s[pos])
    decreases |s| - pos
  {
    if pos < |s| {
      var next := AfterApostropheStep(s, pos);
      var rest := ReplaceFrom(s, NoSpaceAfterApostrophe, next);
      AfterApostropheFrom(s, next);
      ConsSpacing(s[pos], rest, {'\''});
    }
  }

  // ---------------------------------------------------------------------
  // `\s+'` -> "'" and `\s+([,.!?;:])` -> "$1"

  /** The two rules that delete the spaces in front of a mark. */
  datatype DropRule = BeforeApostrophe | BeforePunctuation

  function DropRuleOf(d: DropRule): Rule {
    if d == BeforeApostrophe then NoSpaceBeforeApostrophe else NoSpaceBeforePunctuation
  }

  function MarksOf(d: DropRule): set<char> {
    if d == BeforeApostrophe then {'\''} else Punctuation
  }

  /** Without double spaces, a space run is a single space. */
  lemma SingleSpaceRun(s: string, pos: nat)
    requires pos < |s| && NoDoubleSpace(s) && IsRegexSpace(s[pos])
    ensures SpaceRunAt(s, pos) == 1
  {
    RunLengthNext(s, pos, RegexSpaces);
    assert pos + 1 < |s| ==> s[pos + 1] !in RegexSpaces;
  }

  /** In text without double spaces, `\s+` followed by a mark matches a space
      and the mark right after it. */
  lemma DropBeforeMatch(s: string, pos: nat, d: DropRule)
    requires pos < |s| && NoDoubleSpace(s)
    ensures var marks := MarksOf(d);
      IsRegexSpace(s[pos]) && pos + 1 < |s| && s[pos + 1] in marks ==>
      MatchAt(s, pos, DropRuleOf(d)) == Some(Match(0, [pos, pos + 1, pos + 2]))
    ensures var marks := MarksOf(d);
      !(IsRegexSpace(s[pos]) && pos + 1 < |s| && s[pos + 1] in marks) ==>
      MatchAt(s, pos, DropRuleOf(d)).None?
  {
    var rule, marks := DropRuleOf(d), MarksOf(d);
    var mark := rule.alts[0][1];
    assert rule.alts[0] == [Spaces1, mark];
    MatchAtOnly(s, pos, rule);
    MatchElemsTwo(s, pos, Spaces1, mark);
    if IsRegexSpace(s[pos]) {
      SingleSpaceRun(s, pos);
      assert MatchElem(s, pos, Spaces1) == Some(pos + 1);
      if pos + 1 < |s| {
        assert s[pos + 1..pos + 2][0] == s[pos + 1];
      }
    }
  }

  /** One step of the scan: a space in front of a mark is dropped and the
      mark kept; any other rune is copied. */
  lemma DropBeforeStep(s: string, pos: nat, d: DropRule) returns (c: char, next: nat)
    requires pos < |s| && NoDoubleSpace(s)
    ensures pos < next <= |s|
    ensures ReplaceFrom(s, DropRuleOf(d), pos) == [c] + ReplaceFrom(s, DropRuleOf(d), next)
    ensures IsRegexSpace(s[pos]) && pos + 1 < |s| && s[pos + 1] in MarksOf(d) ==>
      c == s[pos + 1] && next == pos + 2
    ensures !(IsRegexSpace(s[pos]) && pos + 1 < |s| && s[pos + 1] in MarksOf(d)) ==>
      c == s[pos] && next == pos + 1
  {
    var rule := DropRuleOf(d);
    DropBeforeMatch(s, pos, d);
    if IsRegexSpace(s[pos]) && pos + 1 < |s| && s[pos + 1] in MarksOf(d) {
      c, next := s[pos + 1], pos + 2;
      var b := [pos, pos + 1, pos + 2];
      DropBeforeRender(s, pos, d);
      ReplaceFromFired(s, rule, pos, Match(0, b));
    } else {
      c, next := s[pos], pos + 1;
      ReplaceFromCopied(s, rule, pos);
    }
  }

  /** Both rules render the match of a space and a mark as the mark alone. */
  lemma DropBeforeRender(s: string, pos: nat, d: DropRule)
    requires pos + 2 <= |s| && s[pos + 1] in MarksOf(d)
    ensures Render(s, Match(0, [pos, pos + 1, pos + 2]), DropRuleOf(d).replacement) == [s[pos + 1]]
  {
    var b := [pos, pos + 1, pos + 2];
    if d == BeforeApostrophe {
      assert Expand(s, b, [Text("'")]) == "'";
    } else {
      assert Expand(s, b, [Group(1)]) == s[pos + 1..pos + 2];
    }
  }

  /** After dropping the spaces in front of the marks, no space precedes a
      mark; spaces stay single and blank, and text that had no space after
      (or before) the runes of `after` (or `before`) still has none. */
  lemma {:induction false} DropBeforeFrom(s: string, pos: nat, d: DropRule, after: set<char>, before: set<char>)
    requires pos <= |s| && NoDoubleSpace(s)
    ensures var out := ReplaceFrom(s, DropRuleOf(d), pos);
      NoSpaceBefore(out, MarksOf(d)) && NoDoubleSpace(out)
      && (SpacesAreBlanks(s) ==> SpacesAreBlanks(out))
      && (NoSpaceAfter(s, after) ==> NoSpaceAfter(out, after))
      && (NoSpaceBefore(s, before) ==> NoSpaceBefore(out, before))
    ensures var out := ReplaceFrom(s, DropRuleOf(d), pos);
      pos < |s| ==>
        |out| > 0 &&
        out[0] == (if IsRegexSpace(s[pos]) && pos + 1 < |s| && s[pos + 1] in MarksOf(d) then s[pos + 1] else s[pos])
    decreases |s| - pos
  {
    if pos < |s| {
      var c, next := DropBeforeStep(s, pos, d);
      DropBeforeFrom(s, next, d, after, before);
      DropCons(s, pos, d, after, before, c, next, ReplaceFrom(s, DropRuleOf(d), next));
    }
  }

  /** The rune a step of a drop-the-space scan produces, in front of the
      rest of the output. */
  lemma DropCons(s: string, pos: nat, d: DropRule, after: set<char>, before: set<char>,
                 c: char, next: nat, rest: string)
    requires pos < next <= |s| && NoDoubleSpace(s)
    requires IsRegexSpace(s[pos]) && pos + 1 < |s| && s[pos + 1] in MarksOf(d) ==>
      c == s[pos + 1] && next == pos + 2
    requires !(IsRegexSpace(s[pos]) && pos + 1 < |s| && s[pos + 1] in MarksOf(d)) ==>
      c == s[pos] && next == pos + 1
    requires NoSpaceBefore(rest, MarksOf(d)) && NoDoubleSpace(rest)
      && (SpacesAreBlanks(s) ==> SpacesAreBlanks(rest))
      && (NoSpaceAfter(s, after) ==> NoSpaceAfter(rest, after))
      && (NoSpaceBefore(s, before) ==> NoSpaceBefore(rest, before))
    requires next < |s| ==>
      |rest| > 0 &&
      rest[0] == (if IsRegexSpace(s[next]) && next + 1 < |s| && s[next + 1] in MarksOf(d) then s[next + 1] else s[next])
    requires next == |s| ==> rest == ""
    ensures var out := [c] + rest;
      NoSpaceBefore(out, MarksOf(d)) && NoDoubleSpace(out)
      && (SpacesAreBlanks(s) ==> SpacesAreBlanks(out))
      && (NoSpaceAfter(s, after) ==> NoSpaceAfter(out, after))
      && (NoSpaceBefore(s, before) ==> NoSpaceBefore(out, before))
  {
    assert forall m :: m in MarksOf(d) ==> !IsRegexSpace(m);
    ConsNoDoubleSpace(c, rest);
    ConsBlanks(c, rest);
    ConsNoSpaceBefore(c, rest, MarksOf(d));
    ConsNoSpaceAfter(c, rest, after);
    ConsNoSpaceBefore(c, rest, before);
  }

  // ---------------------------------------------------------------------
  // `\s*-\s*` -> "-"

  /** Where `\s*-\s*` matches: a hyphen after the spaces at `pos`, with the
      spaces that follow it. */
  lemma HyphenMatch(s: string, pos: nat)
    requires pos < |s|
    ensures var q := pos + SpaceRunAt(s, pos);
      q < |s| && s[q] == '-' ==>
      MatchAt(s, pos, TightHyphens) == Some(Match(0, [pos, q, q + 1, q + 1 + SpaceRunAt(s, q + 1)]))
    ensures var q := pos + SpaceRunAt(s, pos);
      !(q < |s| && s[q] == '-') ==> MatchAt(s, pos, TightHyphens).None?
  {
    var q := pos + SpaceRunAt(s, pos);
    HyphenLead(s, pos);
    HyphenTail(s, q);
    if q < |s| && s[q] == '-' {
      var e := q + 1 + SpaceRunAt(s, q + 1);
      assert [pos] + [q, q + 1, e] == [pos, q, q + 1, e];
    }
  }

  /** `-\s*` at `q`. */
  /** `\s*` takes the run of spaces at `pos`, then the rest of the
      pattern must match. */
  lemma HyphenLead(s: string, pos: nat)
    requires pos < |s|
    ensures var q := pos + SpaceRunAt(s, pos);
      MatchAt(s, pos, TightHyphens) ==
        if MatchElems(s, q, [Lit("-"), Spaces0]).None? then None
        else Some(Match(0, [pos] + MatchElems(s, q, [Lit("-"), Spaces0]).value))
  {
    var q := pos + SpaceRunAt(s, pos);
    MatchAtOnly(s, pos, TightHyphens);
    MatchElemsCons(s, pos, Spaces0, [Lit("-"), Spaces0]);
    assert [Spaces0] + [Lit("-"), Spaces0] == TightHyphens.alts[0];
    assert MatchElem(s, pos, Spaces0) == Some(q);
  }

  lemma HyphenTail(s: string, q: nat)
    requires q <= |s|
    ensures q < |s| && s[q] == '-' ==>
      MatchElems(s, q, [Lit("-"), Spaces0]) == Some([q, q + 1, q + 1 + SpaceRunAt(s, q + 1)])
    ensures !(q < |s| && s[q] == '-') ==> MatchElems(s, q, [Lit("-"), Spaces0]).None?
  {
    MatchElemsTwo(s, q, Lit("-"), Spaces0);
    LitRuneAt(s, q, '-');
    if q < |s| && s[q] == '-' {
      SpacesZeroAt(s, q + 1);
    }
  }

  /** `\s*` takes the whole run of spaces. */
  lemma SpacesZeroAt(s: string, q: nat)
    requires q <= |s|
    ensures MatchElem(s, q, Spaces0) == Some(q + SpaceRunAt(s, q))
  {
  }

  /** One step of the `\s*-\s*` scan in text without double spaces. */
  lemma HyphenStep(s: string, pos: nat) returns (c: char, next: nat)
    requires pos < |s| && NoDoubleSpace(s)
    ensures pos < next <= |s|
    ensures ReplaceFrom(s, TightHyphens, pos) == [c] + ReplaceFrom(s, TightHyphens, next)
    ensures c == '-' || (c == s[pos] && next == pos + 1)
    ensures c == '-' && next < |s| ==> !IsRegexSpace(s[next])
    ensures s[pos] != '-' && !IsRegexSpace(s[pos]) ==> c == s[pos]
    ensures c != '-' && IsRegexSpace(s[pos]) && pos + 1 < |s| ==> s[pos + 1] != '-'
  {
    c, next := HyphenRune(s, pos), HyphenNext(s, pos);
    HyphenStepOutput(s, pos);
    if IsRegexSpace(s[pos]) {
      SingleSpaceRun(s, pos);
    }
  }

  /** Whether `\s*-\s*` matches at `pos`: a hyphen after the run of spaces
      there. */
  predicate HyphenAhead(s: string, pos: nat)
    requires pos < |s|
  {
    var q := pos + SpaceRunAt(s, pos);
    q < |s| && s[q] == '-'
  }

  /** The rune one step of the `\s*-\s*` scan writes at `pos`. */
  function HyphenRune(s: string, pos: nat): (c: char)
    requires pos < |s|
    ensures c == '-' || c == s[pos]
    ensures s[pos] != '-' && !IsRegexSpace(s[pos]) ==> c == s[pos]
  {
    if HyphenAhead(s, pos) then '-' else s[pos]
  }

  /** Where that scan goes on: past the spaces after the hyphen, or to the
      next rune. */
  function HyphenNext(s: string, pos: nat): (next: nat)
    requires pos < |s|
    ensures pos < next <= |s|
    ensures !HyphenAhead(s, pos) ==> next == pos + 1
    ensures HyphenAhead(s, pos) && next < |s| ==> !IsRegexSpace(s[next])
  {
    var q := pos + SpaceRunAt(s, pos);
    if HyphenAhead(s, pos) then q + 1 + SpaceRunAt(s, q + 1) else pos + 1
  }

  lemma HyphenStepOutput(s: string, pos: nat)
    requires pos < |s|
    ensures ReplaceFrom(s, TightHyphens, pos)
      == [HyphenRune(s, pos)] + ReplaceFrom(s, TightHyphens, HyphenNext(s, pos))
  {
    HyphenMatch(s, pos);
    if HyphenAhead(s, pos) {
      HyphenFired(s, pos);
    } else {
      ReplaceFromCopied(s, TightHyphens, pos);
    }
  }

  lemma HyphenFired(s: string, pos: nat)
    requires pos < |s| && HyphenAhead(s, pos)
    requires MatchAt(s, pos, TightHyphens)
      == Some(Match(0, [pos, pos + SpaceRunAt(s, pos), pos + SpaceRunAt(s, pos) + 1, HyphenNext(s, pos)]))
    ensures ReplaceFrom(s, TightHyphens, pos) == "-" + ReplaceFrom(s, TightHyphens, HyphenNext(s, pos))
  {
    var q := pos + SpaceRunAt(s, pos);
    var b := [pos, q, q + 1, HyphenNext(s, pos)];
    ReplaceFromFiredText(s, TightHyphens, pos, b, "-");
  }

  /** After `\s*-\s*` -> "-" no space is next to a hyphen; spaces stay single
      and blank. */
  lemma {:induction false} HyphenFrom(s: string, pos: nat)
    requires pos <= |s| && NoDoubleSpace(s)
    ensures var out := ReplaceFrom(s, TightHyphens, pos);
      NoSpaceBefore(out, {'-'}) && NoSpaceAfter(out, {'-'}) && NoDoubleSpace(out)
      && (SpacesAreBlanks(s) ==> SpacesAreBlanks(out))
    ensures var out := ReplaceFrom(s, TightHyphens, pos);
      pos < |s| ==>
        |out| > 0 && (out[0] == '-' || out[0] == s[pos])
        && (s[pos] != '-' && !IsRegexSpace(s[pos]) ==> out[0] == s[pos])
    decreases |s| - pos
  {
    if pos < |s| {
      var c, next := HyphenStep(s, pos);
      HyphenFrom(s, next);
      HyphenCons(s, pos, c, next, ReplaceFrom(s, TightHyphens, next));
    }
  }

  /** The rune a step of the `\s*-\s*` scan produces, in front of the rest of
      the output. */
  lemma HyphenCons(s: string, pos: nat, c: char, next: nat, rest: string)
    requires pos < next <= |s| && NoDoubleSpace(s)
    requires c == '-' || (c == s[pos] && next == pos + 1)
    requires c == '-' && next < |s| ==> !IsRegexSpace(s[next])
    requires s[pos] != '-' && !IsRegexSpace(s[pos]) ==> c == s[pos]
    requires c != '-' && IsRegexSpace(s[pos]) && pos + 1 < |s| ==> s[pos + 1] != '-'
    requires NoSpaceBefore(rest, {'-'}) && NoSpaceAfter(rest, {'-'}) && NoDoubleSpace(rest)
    requires SpacesAreBlanks(s) ==> SpacesAreBlanks(rest)
    requires next < |s| ==>
      |rest| > 0 && (rest[0] == '-' || rest[0] == s[next])
      && (s[next] != '-' && !IsRegexSpace(s[next]) ==> rest[0] == s[next])
    requires next == |s| ==> rest == ""
    ensures var out := [c] + rest;
      NoSpaceBefore(out, {'-'}) && NoSpaceAfter(out, {'-'}) && NoDoubleSpace(out)
      && (SpacesAreBlanks(s) ==> SpacesAreBlanks(out))
    ensures var out := [c] + rest;
      |out| > 0 && (out[0] == '-' || out[0] == s[pos])
      && (s[pos] != '-' && !IsRegexSpace(s[pos]) ==> out[0] == s[pos])
  {
    ConsSpacing(c, rest, {'-'});
  }
}
