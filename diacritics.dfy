/** Diacritic stripping (transliterator.go:361-371). */
module Diacritics {

  /** The runes `removeDiacritics` skips: U+064B-U+065F (tanwin, harakat,
      shadda, sukun and the other combining marks of the block) and the
      superscript alef U+0670. */
  predicate IsDiacritic(c: char) {
    ('\U{064B}' <= c <= '\U{065F}') || c == '\U{0670}'
  }

  /** The specification of `removeDiacritics`: the text with every diacritic
      left out, read from the last rune backwards. */
  function StripDiacritics(s: string): (r: string)
    ensures |r| <= |s|
  {
    if |s| == 0 then ""
    else
      var last := s[|s| - 1];
      StripDiacritics(s[..|s| - 1]) + (if IsDiacritic(last) then "" else [last])
  }

  /** `removeDiacritics`: one pass over the runes, appending each rune that
      is not a diacritic to a builder. */
  method RemoveDiacritics(text: string) returns (r: string)
    ensures r == StripDiacritics(text)
  {
    r := "";
    var i := 0;
    while i < |text|
      invariant i <= |text|
      invariant r == StripDiacritics(text[..i])
    {
      assert text[..i + 1][..i] == text[..i];
      if !IsDiacritic(text[i]) {
        r := r + [text[i]];
      }
      i := i + 1;
    }
    assert text[..i] == text;
  }

  /** Stripping works rune by rune: on a concatenation it strips each part. */
  lemma {:induction false} StripDiacriticsConcat(a: string, b: string)
    ensures StripDiacritics(a + b) == StripDiacritics(a) + StripDiacritics(b)
    decreases |b|
  {
    if |b| == 0 {
      assert a + b == a;
    } else {
      var b' := b[..|b| - 1];
      StripDiacriticsConcat(a, b');
      assert (a + b)[..|a + b| - 1] == a + b';
      assert (a + b)[|a + b| - 1] == b[|b| - 1];
    }
  }

  /** A single rune is deleted exactly when it is a diacritic and kept
      otherwise; with `StripDiacriticsConcat` this says that every other
      rune stays, in its original order. */
  lemma StripDiacriticsRune(c: char)
    ensures StripDiacritics([c]) == (if IsDiacritic(c) then "" else [c])
  {
    assert [c][..0] == "";
  }

  /** No diacritic survives, and every rune of the result is a rune of the input. */
  lemma {:induction false} StripDiacriticsMembers(s: string)
    ensures forall c :: c in StripDiacritics(s) <==> c in s && !IsDiacritic(c)
  {
    if |s| > 0 {
      var init := s[..|s| - 1];
      StripDiacriticsMembers(init);
      assert s == init + [s[|s| - 1]];
      forall c
        ensures c in s <==> c in init || c == s[|s| - 1]
      {
        if c in s {
          var j :| 0 <= j < |s| && s[j] == c;
          if j < |s| - 1 {
            assert init[j] == c;
          }
        }
      }
    }
  }

  /** A text is left unchanged exactly when it holds no diacritic. */
  lemma {:induction false} StripDiacriticsUnchanged(s: string)
    ensures StripDiacritics(s) == s <==> forall i :: 0 <= i < |s| ==> !IsDiacritic(s[i])
  {
    if |s| > 0 {
      var init := s[..|s| - 1];
      StripDiacriticsUnchanged(init);
      if forall i :: 0 <= i < |s| ==> !IsDiacritic(s[i]) {
        assert forall i :: 0 <= i < |init| ==> init[i] == s[i];
        assert s == init + [s[|s| - 1]];
      } else {
        var i :| 0 <= i < |s| && IsDiacritic(s[i]);
        StripDiacriticsMembers(s);
        assert s[i] in s && s[i] !in StripDiacritics(s);
      }
    }
  }

  /** Stripping twice is stripping once. */
  lemma StripDiacriticsIdempotent(s: string)
    ensures StripDiacritics(StripDiacritics(s)) == StripDiacritics(s)
  {
    var r := StripDiacritics(s);
    StripDiacriticsMembers(s);
    assert forall i :: 0 <= i < |r| ==> r[i] in r;
    StripDiacriticsUnchanged(r);
  }

  /** Diacritics inside a word do not change its stripped form: the forms
      `transliterateWord` looks up in the dictionaries. */
  lemma StripDiacriticsSkipsMark(a: string, m: char, b: string)
    requires IsDiacritic(m)
    ensures StripDiacritics(a + [m] + b) == StripDiacritics(a + b)
  {
    StripDiacriticsConcat(a + [m], b);
    StripDiacriticsConcat(a, [m]);
    StripDiacriticsRune(m);
    StripDiacriticsConcat(a, b);
  }
}
