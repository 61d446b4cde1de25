/** The fragment of Go's `regexp` package the transliterator uses: patterns
    made of literals, greedy repetitions of a rune class, the ASCII word
    boundary `\b` and the text start `^`, tried alternative by alternative,
    and `ReplaceAllString` / `ReplaceAllStringFunc`, which rewrite the
    leftmost-first non-overlapping matches from left to right. */
module Regex {
  import opened Text

  /** The rune classes the transliterator's patterns repeat. */
  datatype CharClass =
    | SpaceClass   // `\s`
    | BlankClass   // ` `
    | LowerClass   // `[a-z]`
    | HashClass    // `#`
    | PunctClass   // `[,.!?;:]`
    | ConsonantClass  // `[bcdfghjklmnpqrstvwxyz]`

  /** `[a-z]`. */
  const AsciiLowers: set<char> := set c: char | 'a' <= c <= 'z'

  /** The punctuation of `\s+([,.!?;:])`. */
  const Punctuation: set<char> := {',', '.', '!', '?', ';', ':'}

  /** `[bcdfghjklmnpqrstvwxyz]`: the ASCII lower-case consonants. */
  const AsciiConsonants: set<char> :=
    {'b', 'c', 'd', 'f', 'g', 'h', 'j', 'k', 'l', 'm', 'n', 'p', 'q', 'r', 's', 't', 'v', 'w', 'x', 'y', 'z'}

  function ClassChars(k: CharClass): set<char> {
    match k
    case SpaceClass => RegexSpaces
    case BlankClass => {' '}
    case LowerClass => AsciiLowers
    case HashClass => {'#'}
    case PunctClass => Punctuation
    case ConsonantClass => AsciiConsonants
  }

  /** One element of a pattern. */
  datatype Elem =
    | Lit(text: string)                                    // literal runes
    | Repeat(cls: CharClass, min: nat, max: Option<nat>)    // greedy `[...]{min,max}`
    | Boundary                                             // `\b`
    | NonBoundary                                          // `\B`
    | Start                                                // `^` (no multi-line flag)

  /** A piece of a replacement template: literal text or `$k`, where `k`
      numbers the elements of the alternative that matched. */
  datatype Piece = Text(text: string) | Group(index: nat)

  /** `ReplaceAllString` expands a template; `ReplaceAllStringFunc` applies a
      function to the whole match. */
  datatype Replacement = Template(pieces: seq<Piece>) | Func(f: string -> string)

  /** A compiled pattern (its alternatives, in priority order) with its
      replacement. */
  datatype Rule = Rule(alts: seq<seq<Elem>>, replacement: Replacement)

  /** Number of runes of `chars` from `pos` on, taking at most `max` of them. */
  function RunLength(s: string, pos: nat, chars: set<char>, max: Option<nat>): (n: nat)
    requires pos <= |s|
    ensures pos + n <= |s|
    ensures max.Some? ==> n <= max.value
    ensures max.None? && pos + n < |s| ==> s[pos + n] !in chars
    ensures n > 0 <==> pos < |s| && s[pos] in chars && max != Some(0)
    decreases |s| - pos
  {
    if pos == |s| || s[pos] !in chars || max == Some(0) then 0
    else 1 + RunLength(s, pos + 1, chars, if max.Some? then Some(max.value - 1) else None)
  }

  lemma {:induction false} RunLengthChars(s: string, pos: nat, chars: set<char>, max: Option<nat>)
    requires pos <= |s|
    ensures forall i :: pos <= i < pos + RunLength(s, pos, chars, max) ==> s[i] in chars
    decreases |s| - pos
  {
    if RunLength(s, pos, chars, max) > 0 {
      RunLengthChars(s, pos + 1, chars, if max.Some? then Some(max.value - 1) else None);
    }
  }

  /** An unbounded run stops exactly at the first rune outside `chars`. */
  lemma {:induction false} RunLengthExact(s: string, pos: nat, chars: set<char>, k: nat)
    requires pos <= k <= |s|
    requires forall j :: pos <= j < k ==> s[j] in chars
    requires k < |s| ==> s[k] !in chars
    ensures RunLength(s, pos, chars, None) == k - pos
    decreases k - pos
  {
    if pos < k {
      RunLengthExact(s, pos + 1, chars, k);
    }
  }

  /** An unbounded run seen from its second rune is one rune shorter. */
  lemma RunLengthNext(s: string, pos: nat, chars: set<char>)
    requires pos < |s| && s[pos] in chars
    ensures RunLength(s, pos, chars, None) == 1 + RunLength(s, pos + 1, chars, None)
  {
  }

  /** Go's `\b`: the runes on the two sides differ in being ASCII word runes. */
  predicate AtBoundary(s: string, pos: nat)
    requires pos <= |s|
  {
    (pos > 0 && IsWordChar(s[pos - 1])) != (pos < |s| && IsWordChar(s[pos]))
  }

  /** Where an element that starts matching at `pos` stops, if it matches. */
  function MatchElem(s: string, pos: nat, e: Elem): (r: Option<nat>)
    requires pos <= |s|
    ensures r.Some? ==> pos <= r.value <= |s|
  {
    match e
    case Lit(t) => if pos + |t| <= |s| && s[pos..pos + |t|] == t then Some(pos + |t|) else None
    case Repeat(k, mn, mx) =>
      var n := RunLength(s, pos, ClassChars(k), mx);
      if n >= mn then Some(pos + n) else None
    case Boundary => if AtBoundary(s, pos) then Some(pos) else None
    case NonBoundary => if AtBoundary(s, pos) then None else Some(pos)
    case Start => if pos == 0 then Some(pos) else None
  }

  /** Positions that can delimit the groups of a match in a text of length `n`. */
  predicate Ascending(b: seq<nat>, n: nat) {
    (forall i :: 0 <= i < |b| ==> b[i] <= n)
    && (forall i, j :: 0 <= i <= j < |b| ==> b[i] <= b[j])
  }

  /** Matches the elements one after the other from `pos`; the result holds
      `pos` followed by the end of every element. */
  function MatchElems(s: string, pos: nat, elems: seq<Elem>): (r: Option<seq<nat>>)
    requires pos <= |s|
    ensures r.Some? ==> |r.value| == |elems| + 1 && r.value[0] == pos && Ascending(r.value, |s|)
    decreases |elems|
  {
    if |elems| == 0 then Some([pos])
    else
      match MatchElem(s, pos, elems[0])
      case None => None
      case Some(e) =>
        match MatchElems(s, e, elems[1..])
        case None => None
        case Some(b) => Some([pos] + b)
  }

  /** A successful match: which alternative, and the bounds of its elements. */
  datatype Match = Match(alt: nat, bounds: seq<nat>)

  predicate ValidMatch(s: string, m: Match) {
    |m.bounds| > 0 && Ascending(m.bounds, |s|)
  }

  function End(m: Match): nat
    requires |m.bounds| > 0
  {
    m.bounds[|m.bounds| - 1]
  }

  /** The first alternative, from the `k`-th on, that matches at `pos`. */
  function FirstMatch(s: string, pos: nat, alts: seq<seq<Elem>>, k: nat): (r: Option<Match>)
    requires pos <= |s|
    ensures r.Some? ==> k <= r.value.alt < |alts| && MatchElems(s, pos, alts[r.value.alt]) == Some(r.value.bounds)
    ensures r.Some? ==> ValidMatch(s, r.value) && r.value.bounds[0] == pos
    ensures r.None? ==> forall j :: k <= j < |alts| ==> MatchElems(s, pos, alts[j]).None?
    decreases |alts| - k
  {
    if k >= |alts| then None
    else
      match MatchElems(s, pos, alts[k])
      case Some(b) => Some(Match(k, b))
      case None => FirstMatch(s, pos, alts, k + 1)
  }

  /** The match the leftmost-first rule takes at `pos`. */
  function MatchAt(s: string, pos: nat, rule: Rule): (r: Option<Match>)
    requires pos <= |s|
    ensures r.Some? ==> ValidMatch(s, r.value) && r.value.bounds[0] == pos
  {
    FirstMatch(s, pos, rule.alts, 0)
  }

  /** The rule matches at `pos` and consumes at least one rune. None of the
      transliterator's patterns can match the empty text. */
  predicate Fires(s: string, pos: nat, rule: Rule)
    requires pos <= |s|
  {
    var m := MatchAt(s, pos, rule);
    m.Some? && End(m.value) > pos
  }

  /** The text a template produces for a match with bounds `b`; a group
      the alternative does not have expands to nothing, as in Go. */
  function Expand(s: string, b: seq<nat>, pieces: seq<Piece>): string
    requires Ascending(b, |s|)
  {
    if |pieces| == 0 then ""
    else
      var first :=
        match pieces[0]
        case Text(t) => t
        case Group(k) => if k + 1 < |b| then s[b[k]..b[k + 1]] else "";
      first + Expand(s, b, pieces[1..])
  }

  /** The text that replaces a match. */
  function Render(s: string, m: Match, rep: Replacement): string
    requires ValidMatch(s, m)
  {
    match rep
    case Template(ps) => Expand(s, m.bounds, ps)
    case Func(f) => f(s[m.bounds[0]..End(m)])
  }

  /** `ReplaceAllString` from `pos` on: at each position the first
      alternative that matches is replaced and the scan resumes after it;
      otherwise the rune is copied. */
  function ReplaceFrom(s: string, rule: Rule, pos: nat): string
    requires pos <= |s|
    decreases |s| - pos
  {
    if pos == |s| then ""
    else if Fires(s, pos, rule) then
      var m := MatchAt(s, pos, rule).value;
      Render(s, m, rule.replacement) + ReplaceFrom(s, rule, End(m))
    else [s[pos]] + ReplaceFrom(s, rule, pos + 1)
  }

  function ReplaceAll(s: string, rule: Rule): string {
    ReplaceFrom(s, rule, 0)
  }

  // ---------------------------------------------------------------------
  // Generic facts

  /** Matching an element followed by more elements. */
  lemma MatchElemsCons(s: string, pos: nat, e: Elem, rest: seq<Elem>)
    requires pos <= |s|
    ensures MatchElem(s, pos, e).None? ==> MatchElems(s, pos, [e] + rest).None?
    ensures MatchElem(s, pos, e).Some? ==>
      var mid := MatchElem(s, pos, e).value;
      MatchElems(s, pos, [e] + rest) ==
        if MatchElems(s, mid, rest).None? then None else Some([pos] + MatchElems(s, mid, rest).value)
  {
    assert ([e] + rest)[0] == e;
    assert ([e] + rest)[1..] == rest;
  }

  /** Last bound of a match: where it ends. */
  function Last(b: seq<nat>): nat
    requires |b| > 0
  {
    b[|b| - 1]
  }

  /** Matching one list of elements after another: the second list starts
      where the first one ends. */
  lemma {:induction false} MatchElemsAppend(s: string, pos: nat, xs: seq<Elem>, ys: seq<Elem>)
    requires pos <= |s|
    ensures var r := MatchElems(s, pos, xs);
      r.None? ==> MatchElems(s, pos, xs + ys).None?
    ensures var r := MatchElems(s, pos, xs);
      r.Some? ==>
        var e := Last(r.value);
        (MatchElems(s, pos, xs + ys).Some? <==> MatchElems(s, e, ys).Some?)
        && (MatchElems(s, e, ys).Some? ==> Last(MatchElems(s, pos, xs + ys).value) == Last(MatchElems(s, e, ys).value))
    decreases |xs|
  {
    if |xs| == 0 {
      assert xs + ys == ys;
    } else {
      assert (xs + ys)[0] == xs[0] && (xs + ys)[1..] == xs[1..] + ys;
      var m := MatchElem(s, pos, xs[0]);
      if m.Some? {
        MatchElemsAppend(s, m.value, xs[1..], ys);
      }
    }
  }

  /** Matching a single element. */
  /** A one-rune literal. */
  lemma LitRuneAt(s: string, q: nat, c: char)
    requires q <= |s|
    ensures MatchElem(s, q, Lit([c])) == if q < |s| && s[q] == c then Some(q + 1) else None
  {
    if q < |s| {
      assert s[q..q + 1][0] == s[q];
    }
  }

  lemma MatchElemsOne(s: string, pos: nat, e: Elem)
    requires pos <= |s|
    ensures MatchElem(s, pos, e).None? ==> MatchElems(s, pos, [e]).None?
    ensures MatchElem(s, pos, e).Some? ==>
      MatchElems(s, pos, [e]) == Some([pos, MatchElem(s, pos, e).value])
  {
    MatchElemsCons(s, pos, e, []);
    assert [e] + [] == [e];
    if MatchElem(s, pos, e).Some? {
      var mid := MatchElem(s, pos, e).value;
      assert MatchElems(s, mid, []) == Some([mid]);
      assert [pos] + [mid] == [pos, mid];
    }
  }

  /** Matching two elements one after the other. */
  lemma MatchElemsTwo(s: string, pos: nat, e1: Elem, e2: Elem)
    requires pos <= |s|
    ensures MatchElem(s, pos, e1).None? ==> MatchElems(s, pos, [e1, e2]).None?
    ensures MatchElem(s, pos, e1).Some? ==>
      var mid := MatchElem(s, pos, e1).value;
      MatchElems(s, pos, [e1, e2]) ==
        if MatchElem(s, mid, e2).None? then None else Some([pos, mid, MatchElem(s, mid, e2).value])
  {
    MatchElemsCons(s, pos, e1, [e2]);
    assert [e1] + [e2] == [e1, e2];
    if MatchElem(s, pos, e1).Some? {
      var mid := MatchElem(s, pos, e1).value;
      MatchElemsOne(s, mid, e2);
      if MatchElem(s, mid, e2).Some? {
        assert [pos] + [mid, MatchElem(s, mid, e2).value] == [pos, mid, MatchElem(s, mid, e2).value];
      }
    }
  }

  /** A rule with a single alternative matches where that alternative does. */
  lemma MatchAtOnly(s: string, pos: nat, rule: Rule)
    requires pos <= |s| && |rule.alts| == 1
    ensures MatchElems(s, pos, rule.alts[0]).None? ==> MatchAt(s, pos, rule).None?
    ensures MatchElems(s, pos, rule.alts[0]).Some? ==>
      MatchAt(s, pos, rule) == Some(Match(0, MatchElems(s, pos, rule.alts[0]).value))
  {
  }

  /** With two alternatives, the second is taken when the first fails. */
  lemma MatchAtSecond(s: string, pos: nat, rule: Rule, b: seq<nat>)
    requires pos <= |s| && |rule.alts| == 2
    requires MatchElems(s, pos, rule.alts[0]).None? && MatchElems(s, pos, rule.alts[1]) == Some(b)
    ensures MatchAt(s, pos, rule) == Some(Match(1, b))
  {
  }

  /** Where the rule fires, its rendering replaces the match. */
  lemma ReplaceFromFired(s: string, rule: Rule, pos: nat, m: Match)
    requires pos < |s| && MatchAt(s, pos, rule) == Some(m) && End(m) > pos
    ensures ReplaceFrom(s, rule, pos) == Render(s, m, rule.replacement) + ReplaceFrom(s, rule, End(m))
  {
  }

  /** The same for a template that is one piece of literal text. */
  lemma ReplaceFromFiredText(s: string, rule: Rule, pos: nat, b: seq<nat>, t: string)
    requires pos < |s| && MatchAt(s, pos, rule) == Some(Match(0, b))
    requires |b| > 0 && b[|b| - 1] > pos && rule.replacement == Template([Text(t)])
    ensures ReplaceFrom(s, rule, pos) == t + ReplaceFrom(s, rule, b[|b| - 1])
  {
    var m := Match(0, b);
    ReplaceFromFired(s, rule, pos, m);
    ExpandText(s, b, t);
    assert Render(s, m, rule.replacement) == Expand(s, b, [Text(t)]);
  }

  lemma ExpandText(s: string, b: seq<nat>, t: string)
    requires Ascending(b, |s|)
    ensures Expand(s, b, [Text(t)]) == t
  {
    assert [Text(t)][1..] == [];
  }

  /** The same for a function replacement, with its output named. */
  lemma ReplaceFromFiredFunc(s: string, rule: Rule, pos: nat, m: Match, out: string)
    requires pos < |s| && MatchAt(s, pos, rule) == Some(m) && End(m) > pos
    requires rule.replacement.Func? && rule.replacement.f(s[m.bounds[0]..End(m)]) == out
    ensures ReplaceFrom(s, rule, pos) == out + ReplaceFrom(s, rule, End(m))
  {
    ReplaceFromFired(s, rule, pos, m);
  }

  /** Where the rule does not match, the rune is copied. */
  lemma ReplaceFromCopied(s: string, rule: Rule, pos: nat)
    requires pos < |s| && MatchAt(s, pos, rule).None?
    ensures ReplaceFrom(s, rule, pos) == [s[pos]] + ReplaceFrom(s, rule, pos + 1)
  {
  }

  lemma ConcatAssoc(a: string, b: string, c: string)
    ensures a + (b + c) == (a + b) + c
  {
  }

  lemma ReplaceFromNotFired(s: string, rule: Rule, pos: nat)
    requires pos < |s| && !Fires(s, pos, rule)
    ensures ReplaceFrom(s, rule, pos) == [s[pos]] + ReplaceFrom(s, rule, pos + 1)
  {
  }

  /** One step of the scan: the text produced at `pos` and where the scan
      goes on. */
  lemma ScanStep(s: string, rule: Rule, pos: nat) returns (piece: string, next: nat)
    requires pos < |s|
    ensures pos < next <= |s|
    ensures ReplaceFrom(s, rule, pos) == piece + ReplaceFrom(s, rule, next)
    ensures Fires(s, pos, rule) ==> next == End(MatchAt(s, pos, rule).value)
    ensures !Fires(s, pos, rule) ==> next == pos + 1
  {
    if Fires(s, pos, rule) {
      var m := MatchAt(s, pos, rule).value;
      piece, next := Render(s, m, rule.replacement), End(m);
      ReplaceFromFired(s, rule, pos, m);
    } else {
      piece, next := [s[pos]], pos + 1;
      ReplaceFromNotFired(s, rule, pos);
    }
  }

  /** The scan from `pos` passes through `k` when no match that starts
      before `k` reaches past it: the output from `k` is a suffix of the
      output from `pos`. */
  lemma {:induction false} ScanReaches(s: string, rule: Rule, pos: nat, k: nat) returns (pre: string)
    requires pos <= k <= |s|
    requires forall p :: pos <= p < k && Fires(s, p, rule) ==> End(MatchAt(s, p, rule).value) <= k
    ensures ReplaceFrom(s, rule, pos) == pre + ReplaceFrom(s, rule, k)
    decreases k - pos
  {
    if pos == k {
      pre := "";
    } else {
      var piece, next := ScanStep(s, rule, pos);
      var rest := ScanReaches(s, rule, next, k);
      pre := piece + rest;
      ConcatAssoc(piece, rest, ReplaceFrom(s, rule, k));
    }
  }

  /** Where the rule never fires, the text is copied unchanged. */
  lemma {:induction false} ReplaceFromNoMatch(s: string, rule: Rule, pos: nat)
    requires pos <= |s|
    requires forall p :: pos <= p < |s| ==> !Fires(s, p, rule)
    ensures ReplaceFrom(s, rule, pos) == s[pos..]
    decreases |s| - pos
  {
    if pos < |s| {
      ReplaceFromNoMatch(s, rule, pos + 1);
      assert s[pos..] == [s[pos]] + s[pos + 1..];
    }
  }

  /** A literal element of a successful match matched its own text. */
  lemma {:induction false} MatchedLiteral(s: string, pos: nat, elems: seq<Elem>, k: nat)
    requires pos <= |s| && k < |elems| && elems[k].Lit?
    requires MatchElems(s, pos, elems).Some?
    ensures var b := MatchElems(s, pos, elems).value;
      s[b[k]..b[k + 1]] == elems[k].text
    decreases k
  {
    var e := MatchElem(s, pos, elems[0]).value;
    if k > 0 {
      MatchedLiteral(s, e, elems[1..], k - 1);
    }
  }

  /** A boundary element of a successful match sits at a word boundary. */
  lemma {:induction false} MatchedBoundary(s: string, pos: nat, elems: seq<Elem>, k: nat)
    requires pos <= |s| && k < |elems| && elems[k] == Boundary
    requires MatchElems(s, pos, elems).Some?
    ensures var b := MatchElems(s, pos, elems).value;
      b[k] <= |s| && AtBoundary(s, b[k])
    decreases k
  {
    var e := MatchElem(s, pos, elems[0]).value;
    if k > 0 {
      MatchedBoundary(s, e, elems[1..], k - 1);
    }
  }

  /** Every alternative of the rule contains the literal `t`. */
  predicate NeedsLiteral(rule: Rule, t: string) {
    forall j :: 0 <= j < |rule.alts| ==> Lit(t) in rule.alts[j]
  }

  /** A rule all of whose alternatives contain a literal never changes a
      text that does not contain it. */
  lemma LiteralAbsentMeansUnchanged(s: string, rule: Rule, t: string)
    requires NeedsLiteral(rule, t) && !Contains(s, t)
    ensures ReplaceAll(s, rule) == s
  {
    forall p | 0 <= p < |s|
      ensures !Fires(s, p, rule)
    {
      var m := MatchAt(s, p, rule);
      if m.Some? {
        var elems := rule.alts[m.value.alt];
        var k :| 0 <= k < |elems| && elems[k] == Lit(t);
        MatchedLiteral(s, p, elems, k);
        var b := m.value.bounds;
        ContainsSlice(s, b[k], t);
      }
    }
    ReplaceFromNoMatch(s, rule, 0);
  }

  // ---------------------------------------------------------------------
  // Rule lists

  /** The rules applied one after the other, in list order. */
  function ApplyRules(s: string, rules: seq<Rule>): string
    decreases |rules|
  {
    if |rules| == 0 then s
    else ReplaceAll(ApplyRules(s, rules[..|rules| - 1]), rules[|rules| - 1])
  }

  lemma {:induction false} ApplyRulesAppend(s: string, a: seq<Rule>, b: seq<Rule>)
    ensures ApplyRules(s, a + b) == ApplyRules(ApplyRules(s, a), b)
    decreases |b|
  {
    if |b| == 0 {
      assert a + b == a;
    } else {
      var ab := a + b;
      assert ab[..|ab| - 1] == a + b[..|b| - 1];
      assert ab[|ab| - 1] == b[|b| - 1];
      ApplyRulesAppend(s, a, b[..|b| - 1]);
    }
  }

  lemma ApplyThreeRules(s: string, r1: Rule, r2: Rule, r3: Rule)
    ensures ApplyRules(s, [r1, r2, r3]) == ReplaceAll(ReplaceAll(ReplaceAll(s, r1), r2), r3)
  {
    assert [r1, r2, r3][..2] == [r1, r2];
    assert [r1, r2][..1] == [r1];
    assert [r1][..0] == [];
    assert ApplyRules(s, [r1]) == ReplaceAll(s, r1);
    assert ApplyRules(s, [r1, r2]) == ReplaceAll(ReplaceAll(s, r1), r2);
  }

  /** Rules that each leave a text as it is leave it as it is together. */
  lemma {:induction false} ApplyRulesUnchanged(s: string, rules: seq<Rule>)
    requires forall i :: 0 <= i < |rules| ==> ReplaceAll(s, rules[i]) == s
    ensures ApplyRules(s, rules) == s
    decreases |rules|
  {
    if |rules| > 0 {
      ApplyRulesUnchanged(s, rules[..|rules| - 1]);
    }
  }

  /** A loop that rewrites the text with each rule in turn. */
  method ApplyInOrder(text: string, rules: seq<Rule>) returns (r: string)
    ensures r == ApplyRules(text, rules)
  {
    r := text;
    for i := 0 to |rules|
      invariant r == ApplyRules(text, rules[..i])
    {
      assert rules[..i + 1][..i] == rules[..i];
      r := ReplaceAll(r, rules[i]);
    }
    assert rules[..|rules|] == rules;
  }
}
