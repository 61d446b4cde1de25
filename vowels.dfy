/** `insertVowels` (transliterator.go:415-426): an "a" between the two
    runes of every pair of ASCII consonants the leftmost-first scan of
    `([bcdfghjklmnpqrstvwxyz])([bcdfghjklmnpqrstvwxyz])` finds. */
module Vowels {
  import opened Text
  import opened Regex
  import opened Script

  predicate IsConsonant(c: char) {
    c in AsciiConsonants
  }

  /** `([bcdfghjklmnpqrstvwxyz])`. */
  const Consonant: Elem := Repeat(ConsonantClass, 1, Some(1))

  /** The function handed to `ReplaceAllStringFunc`: a match of two runes
      gets an "a" between them. */
  function SplitPair(m: string): string {
    if |m| == 2 then [m[0]] + "a" + [m[1]] else m
  }

  const VowelRule: Rule := Rule([[Consonant, Consonant]], Func(SplitPair))

  /** `insertVowels`; its dictionary argument is not used. */
  function InsertVowels(text: string): string {
    ReplaceAll(text, VowelRule)
  }

  // ---------------------------------------------------------------------
  // The scan, stated directly

  /** Two consonants side by side somewhere in the text. */
  predicate HasConsonantPair(s: string) {
    exists i :: 0 <= i < |s| - 1 && IsConsonant(s[i]) && IsConsonant(s[i + 1])
  }

  /** The pair the scan takes at the head of `s`. */
  predicate PairAtHead(s: string) {
    |s| >= 2 && IsConsonant(s[0]) && IsConsonant(s[1])
  }

  /** From left to right: a pair at the head is taken whole with an "a"
      between its runes, any other rune is copied. */
  function Vowelize(s: string): string
    decreases |s|
  {
    if |s| == 0 then ""
    else if PairAtHead(s) then [s[0], 'a', s[1]] + Vowelize(s[2..])
    else [s[0]] + Vowelize(s[1..])
  }

  /** How many pairs that scan takes. */
  function PairCount(s: string): nat
    decreases |s|
  {
    if |s| == 0 then 0
    else if PairAtHead(s) then 1 + PairCount(s[2..])
    else PairCount(s[1..])
  }

  /** Which runes of `Vowelize(s)` the scan inserted. */
  function InsertedMask(s: string): seq<bool>
    decreases |s|
  {
    if |s| == 0 then []
    else if PairAtHead(s) then [false, true, false] + InsertedMask(s[2..])
    else [false] + InsertedMask(s[1..])
  }

  /** The runes of `r` the mask does not mark. */
  function Keep(r: string, mask: seq<bool>): (k: string)
    requires |r| == |mask|
    ensures |k| <= |r|
  {
    if |r| == 0 then ""
    else (if mask[0] then "" else [r[0]]) + Keep(r[1..], mask[1..])
  }

  // ---------------------------------------------------------------------
  // The regular expression is the scan

  lemma ConsonantMatch(s: string, p: nat)
    requires p <= |s|
    ensures p < |s| && IsConsonant(s[p]) ==> MatchElem(s, p, Consonant) == Some(p + 1)
    ensures !(p < |s| && IsConsonant(s[p])) ==> MatchElem(s, p, Consonant).None?
  {
  }

  lemma VowelMatch(s: string, p: nat)
    requires p <= |s|
    ensures PairAtHead(s[p..]) ==> MatchAt(s, p, VowelRule) == Some(Match(0, [p, p + 1, p + 2]))
    ensures !PairAtHead(s[p..]) ==> MatchAt(s, p, VowelRule).None?
  {
    MatchAtOnly(s, p, VowelRule);
    MatchElemsTwo(s, p, Consonant, Consonant);
    ConsonantMatch(s, p);
    if p < |s| && IsConsonant(s[p]) {
      ConsonantMatch(s, p + 1);
    }
  }

  lemma {:induction false} InsertVowelsFrom(s: string, p: nat)
    requires p <= |s|
    ensures ReplaceFrom(s, VowelRule, p) == Vowelize(s[p..])
    decreases |s| - p
  {
    if p < |s| {
      if PairAtHead(s[p..]) {
        VowelPairStep(s, p);
        InsertVowelsFrom(s, p + 2);
        assert s[p..][2..] == s[p + 2..];
      } else {
        VowelCopyStep(s, p);
        InsertVowelsFrom(s, p + 1);
        assert s[p..][1..] == s[p + 1..];
      }
    }
  }

  lemma VowelPairStep(s: string, p: nat)
    requires p < |s| && PairAtHead(s[p..])
    ensures ReplaceFrom(s, VowelRule, p) == [s[p], 'a', s[p + 1]] + ReplaceFrom(s, VowelRule, p + 2)
  {
    VowelMatch(s, p);
    var m := Match(0, [p, p + 1, p + 2]);
    assert s[p..p + 2] == [s[p], s[p + 1]];
    ReplaceFromFiredFunc(s, VowelRule, p, m, [s[p], 'a', s[p + 1]]);
  }

  lemma VowelCopyStep(s: string, p: nat)
    requires p < |s| && !PairAtHead(s[p..])
    ensures ReplaceFrom(s, VowelRule, p) == [s[p]] + ReplaceFrom(s, VowelRule, p + 1)
  {
    VowelMatch(s, p);
    ReplaceFromCopied(s, VowelRule, p);
  }

  /** `insertVowels` is the left-to-right scan over non-overlapping
      consonant pairs. */
  lemma InsertVowelsIsVowelize(s: string)
    ensures InsertVowels(s) == Vowelize(s)
  {
    InsertVowelsFrom(s, 0);
    assert s[0..] == s;
  }

  // ---------------------------------------------------------------------
  // Properties of the scan

  /** The output is the input lengthened by one rune per pair. */
  lemma {:induction false} VowelizeLength(s: string)
    ensures |Vowelize(s)| == |s| + PairCount(s)
    decreases |s|
  {
    if |s| > 0 {
      if PairAtHead(s) {
        VowelizeLength(s[2..]);
      } else {
        VowelizeLength(s[1..]);
      }
    }
  }

  /** The scan takes a pair exactly when two consonants stand side by side. */
  lemma {:induction false} PairCountPositive(s: string)
    ensures PairCount(s) > 0 <==> HasConsonantPair(s)
    decreases |s|
  {
    if |s| > 0 {
      if PairAtHead(s) {
        assert IsConsonant(s[0]) && IsConsonant(s[1]);
      } else {
        PairCountPositive(s[1..]);
        if HasConsonantPair(s) {
          var i :| 0 <= i < |s| - 1 && IsConsonant(s[i]) && IsConsonant(s[i + 1]);
          assert i > 0;
          assert IsConsonant(s[1..][i - 1]) && IsConsonant(s[1..][i]);
        }
        if HasConsonantPair(s[1..]) {
          var i :| 0 <= i < |s[1..]| - 1 && IsConsonant(s[1..][i]) && IsConsonant(s[1..][i + 1]);
          assert IsConsonant(s[i + 1]) && IsConsonant(s[i + 2]);
        }
      }
    }
  }

  /** A text with no two adjacent consonants is left as it is, and only
      such a text. */
  lemma InsertVowelsUnchanged(s: string)
    ensures InsertVowels(s) == s <==> !HasConsonantPair(s)
  {
    InsertVowelsIsVowelize(s);
    VowelizeLength(s);
    PairCountPositive(s);
    if !HasConsonantPair(s) {
      VowelizeIdentity(s);
    }
  }

  lemma {:induction false} VowelizeIdentity(s: string)
    requires PairCount(s) == 0
    ensures Vowelize(s) == s
    decreases |s|
  {
    if |s| > 0 {
      VowelizeIdentity(s[1..]);
      assert s == [s[0]] + s[1..];
    }
  }

  lemma {:induction false} KeepConcat(a: string, ma: seq<bool>, b: string, mb: seq<bool>)
    requires |a| == |ma| && |b| == |mb|
    ensures Keep(a + b, ma + mb) == Keep(a, ma) + Keep(b, mb)
    decreases |a|
  {
    if |a| > 0 {
      assert (a + b)[1..] == a[1..] + b;
      assert (ma + mb)[1..] == ma[1..] + mb;
      assert (a + b)[0] == a[0] && (ma + mb)[0] == ma[0];
      KeepConcat(a[1..], ma[1..], b, mb);
    } else {
      assert a + b == b && ma + mb == mb;
    }
  }

  lemma KeepOne(c: char, marked: bool)
    ensures Keep([c], [marked]) == if marked then "" else [c]
  {
    assert [c][1..] == [] && [marked][1..] == [];
  }

  /** Every marked rune is an "a" standing between two consonants. */
  predicate MarksBetweenConsonants(r: string, m: seq<bool>)
    requires |r| == |m|
  {
    forall k :: 0 <= k < |r| && m[k] ==>
      r[k] == 'a' && 0 < k < |r| - 1 && IsConsonant(r[k - 1]) && IsConsonant(r[k + 1])
  }

  lemma MarksConcat(a: string, ma: seq<bool>, b: string, mb: seq<bool>)
    requires |a| == |ma| && |b| == |mb|
    requires MarksBetweenConsonants(a, ma) && MarksBetweenConsonants(b, mb)
    ensures MarksBetweenConsonants(a + b, ma + mb)
  {
    var r, m := a + b, ma + mb;
    forall k | 0 <= k < |r| && m[k]
      ensures r[k] == 'a' && 0 < k < |r| - 1 && IsConsonant(r[k - 1]) && IsConsonant(r[k + 1])
    {
      if k < |a| {
        assert ma[k];
      } else {
        assert mb[k - |a|];
      }
    }
  }

  /** The mask of `s` marks runes of `Vowelize(s)` that are an "a" between
      two consonants, and deleting them gives `s` back. */
  predicate MaskRestores(s: string) {
    var r := Vowelize(s);
    var m := InsertedMask(s);
    |m| == |r| && Keep(r, m) == s && MarksBetweenConsonants(r, m)
  }

  /** Every inserted rune is an "a" standing between two consonants, and
      deleting the inserted runes gives the input back. */
  lemma {:induction false} VowelizeMask(s: string)
    ensures MaskRestores(s)
    decreases |s|
  {
    if |s| == 0 {
    } else if PairAtHead(s) {
      VowelizeMask(s[2..]);
      MaskPairStep(s);
    } else {
      VowelizeMask(s[1..]);
      MaskCopyStep(s);
    }
  }

  lemma MaskPairStep(s: string)
    requires PairAtHead(s) && MaskRestores(s[2..])
    ensures MaskRestores(s)
  {
    var t := s[2..];
    var head, mh := [s[0], 'a', s[1]], [false, true, false];
    assert Vowelize(s) == head + Vowelize(t) && InsertedMask(s) == mh + InsertedMask(t);
    KeepConcat(head, mh, Vowelize(t), InsertedMask(t));
    assert head[1..] == ['a', s[1]] && mh[1..] == [true, false];
    assert ['a', s[1]][1..] == [s[1]] && [true, false][1..] == [false];
    KeepOne(s[1], false);
    assert Keep(head, mh) == [s[0], s[1]];
    assert s == [s[0], s[1]] + t;
    MarksConcat(head, mh, Vowelize(t), InsertedMask(t));
  }

  lemma MaskCopyStep(s: string)
    requires |s| > 0 && !PairAtHead(s) && MaskRestores(s[1..])
    ensures MaskRestores(s)
  {
    var t := s[1..];
    assert Vowelize(s) == [s[0]] + Vowelize(t) && InsertedMask(s) == [false] + InsertedMask(t);
    KeepConcat([s[0]], [false], Vowelize(t), InsertedMask(t));
    KeepOne(s[0], false);
    assert s == [s[0]] + t;
    MarksConcat([s[0]], [false], Vowelize(t), InsertedMask(t));
  }

  /** The scan adds only "a", so it neither brings in nor removes Arabic
      script. */
  lemma {:induction false} VowelizeKeepsScript(s: string)
    ensures ContainsArabicScript(Vowelize(s)) == ContainsArabicScript(s)
    decreases |s|
  {
    if |s| > 0 {
      if PairAtHead(s) {
        VowelizeKeepsScript(s[2..]);
        ContainsArabicScriptConcat([s[0], 'a', s[1]], Vowelize(s[2..]));
        ContainsArabicScriptConcat([s[0], s[1]], s[2..]);
        assert s == [s[0], s[1]] + s[2..];
      } else {
        VowelizeKeepsScript(s[1..]);
        ContainsArabicScriptConcat([s[0]], Vowelize(s[1..]));
        ContainsArabicScriptConcat([s[0]], s[1..]);
        assert s == [s[0]] + s[1..];
      }
    }
  }
}
