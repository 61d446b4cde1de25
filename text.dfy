/** Character classes and the operations of Go's `strings` package and of the
    `regexp` character classes that the transliterator relies on.
    A Go string is modelled as the sequence of its runes (Unicode scalar
    values); `Utf8` gives its byte representation where byte lengths matter. */
module Text {

  datatype Option<T> = None | Some(value: T)

  /** Go regexp `\s`: exactly the ASCII characters [\t\n\f\r ] (not \v). */
  predicate IsRegexSpace(c: char) {
    c in RegexSpaces
  }

  const RegexSpaces: set<char> := {'\t', '\n', '\U{000C}', '\r', ' '}

  /** The runes for which `unicode.IsSpace` holds: U+0009-U+000D, U+0020,
      U+0085, U+00A0, U+1680, U+2000-U+200A, U+2028, U+2029, U+202F, U+205F
      and U+3000. */
  const UnicodeSpaces: set<char> := {
    '\t', '\n', '\U{000B}', '\U{000C}', '\r', ' ', '\U{0085}', '\U{00A0}', '\U{1680}',
    '\U{2000}', '\U{2001}', '\U{2002}', '\U{2003}', '\U{2004}', '\U{2005}', '\U{2006}',
    '\U{2007}', '\U{2008}', '\U{2009}', '\U{200A}', '\U{2028}', '\U{2029}', '\U{202F}',
    '\U{205F}', '\U{3000}'
  }

  /** `unicode.IsSpace`, the test used by `strings.TrimSpace` and `strings.Fields`. */
  predicate IsUnicodeSpace(c: char) {
    c in UnicodeSpaces
  }

  /** ASCII word character [0-9A-Za-z_]: the class behind Go's `\b`. */
  predicate IsWordChar(c: char) {
    c == '_' || ('a' <= c <= 'z') || ('A' <= c <= 'Z') || ('0' <= c <= '9')
  }

  predicate IsAsciiLower(c: char) { 'a' <= c <= 'z' }

  /** A word character is no kind of space. */
  lemma WordCharIsNotSpace(c: char)
    requires IsWordChar(c)
    ensures !IsUnicodeSpace(c) && !IsRegexSpace(c)
  {
  }

  function ToUpperAscii(c: char): (u: char)
    requires IsAsciiLower(c)
    ensures 'A' <= u <= 'Z' && u as int + 32 == c as int
  {
    (c as int - 32) as char
  }

  /** `unicode.ToUpper` on the ASCII range; every other rune is kept. */
  function UpperRune(c: char): (u: char)
    ensures IsAsciiLower(c) ==> u == ToUpperAscii(c)
    ensures !IsAsciiLower(c) ==> u == c
  {
    if IsAsciiLower(c) then ToUpperAscii(c) else c
  }

  /** `strings.ToUpper` on text whose letters are ASCII. */
  function UpperString(s: string): (r: string)
    ensures |r| == |s| && forall i :: 0 <= i < |s| ==> r[i] == UpperRune(s[i])
  {
    if |s| == 0 then "" else [UpperRune(s[0])] + UpperString(s[1..])
  }

  /** `strings.Replace(s, [c], [d], 1)`: the first `c` becomes `d`. */
  function ReplaceFirst(s: string, c: char, d: char): (r: string)
    ensures |r| == |s|
  {
    if |s| == 0 then ""
    else if s[0] == c then [d] + s[1..]
    else [s[0]] + ReplaceFirst(s[1..], c, d)
  }

  /** Every rune is kept, or it is a `c` that became `d`. */
  lemma {:induction false} ReplaceFirstRunes(s: string, c: char, d: char)
    ensures var r := ReplaceFirst(s, c, d);
      forall i :: 0 <= i < |s| ==> r[i] == s[i] || (s[i] == c && r[i] == d)
    decreases |s|
  {
    if |s| > 0 && s[0] != c {
      var t := s[1..];
      ReplaceFirstRunes(t, c, d);
      var r, rt := ReplaceFirst(s, c, d), ReplaceFirst(t, c, d);
      assert r == [s[0]] + rt;
      forall i | 0 < i < |s| ensures r[i] == s[i] || (s[i] == c && r[i] == d) {
        assert r[i] == rt[i - 1] && s[i] == t[i - 1];
      }
    }
  }

    /** Only the first occurrence of `c` is replaced: a changed rune has no
      `c` before it. */
  lemma {:induction false} ReplaceFirstOnlyFirst(s: string, c: char, d: char)
    ensures var r := ReplaceFirst(s, c, d);
      forall i :: 0 <= i < |s| && r[i] != s[i] ==> c !in s[..i]
    decreases |s|
  {
    if |s| > 0 && s[0] != c {
      var t := s[1..];
      ReplaceFirstOnlyFirst(t, c, d);
      var r, rt := ReplaceFirst(s, c, d), ReplaceFirst(t, c, d);
      assert r == [s[0]] + rt;
      forall i | 0 <= i < |s| && r[i] != s[i]
        ensures c !in s[..i]
      {
        assert i > 0 && rt[i - 1] != t[i - 1];
        assert s[..i] == [s[0]] + t[..i - 1];
      }
    }
  }

  /** Where `c` occurs, `d` is written. */
  lemma {:induction false} ReplaceFirstWrites(s: string, c: char, d: char)
    requires c in s
    ensures d in ReplaceFirst(s, c, d)
    decreases |s|
  {
    var r := ReplaceFirst(s, c, d);
    if s[0] == c {
      assert r[0] == d;
    } else {
      var t := s[1..];
      assert c in t by {
        var k :| 0 <= k < |s| && s[k] == c;
        assert k > 0 && t[k - 1] == c;
      }
      ReplaceFirstWrites(t, c, d);
      var rt := ReplaceFirst(t, c, d);
      assert r == [s[0]] + rt;
      var k :| 0 <= k < |rt| && rt[k] == d;
      assert r[k + 1] == d;
    }
  }

  /** Without `c` the text is left as it is. */
  lemma {:induction false} ReplaceFirstAbsent(s: string, c: char, d: char)
    requires c !in s
    ensures ReplaceFirst(s, c, d) == s
    decreases |s|
  {
    if |s| > 0 {
      var t := s[1..];
      assert c !in t by {
        forall k | 0 <= k < |t| ensures t[k] != c {
          assert t[k] == s[k + 1];
        }
      }
      ReplaceFirstAbsent(t, c, d);
      assert s == [s[0]] + t;
    }
  }

  /** When `c` occurs only as the last rune, that last rune is replaced. */
  lemma ReplaceFirstAtEnd(s: string, c: char, d: char)
    requires |s| > 0 && s[|s| - 1] == c && c !in s[..|s| - 1]
    ensures ReplaceFirst(s, c, d) == s[..|s| - 1] + [d]
  {
    var a := s[..|s| - 1];
    assert s == a + [c];
    ReplaceFirstSkips(a, [c], c, d);
    assert [c][1..] == [];
  }

  /** A prefix without `c` is kept as it is. */
  lemma {:induction false} ReplaceFirstSkips(a: string, b: string, c: char, d: char)
    requires c !in a
    ensures ReplaceFirst(a + b, c, d) == a + ReplaceFirst(b, c, d)
    decreases |a|
  {
    if |a| > 0 {
      var ab, t := a + b, a[1..];
      assert ab[0] == a[0] != c;
      assert ab[1..] == t + b;
      assert ReplaceFirst(ab, c, d) == [a[0]] + ReplaceFirst(t + b, c, d);
      assert c !in t by {
        forall i | 0 <= i < |t| ensures t[i] != c {
          assert t[i] == a[i + 1];
        }
      }
      ReplaceFirstSkips(t, b, c, d);
      assert a == [a[0]] + t;
    } else {
      assert a + b == b;
    }
  }

  /** `strings.HasSuffix`. (`strings.HasPrefix` is Dafny's `prefix <= s`.) */
  predicate HasSuffix(s: string, suffix: string) {
    |suffix| <= |s| && s[|s| - |suffix|..] == suffix
  }

  /** `s` contains `sub` as a contiguous substring (what a literal regexp match finds). */
  predicate Contains(s: string, sub: string)
    decreases |s|
  {
    sub <= s || (|s| > 0 && Contains(s[1..], sub))
  }

  lemma {:induction false} ContainsChar(s: string, sub: string, c: char)
    requires Contains(s, sub) && c in sub
    ensures c in s
    decreases |s|
  {
    if sub <= s {
      var k :| 0 <= k < |sub| && sub[k] == c;
      assert s[k] == c;
    } else {
      ContainsChar(s[1..], sub, c);
      assert s == [s[0]] + s[1..];
    }
  }

  /** A slice of `s` is contained in `s`. */
  lemma {:induction false} ContainsSlice(s: string, i: nat, sub: string)
    requires i + |sub| <= |s| && s[i..i + |sub|] == sub
    ensures Contains(s, sub)
    decreases i
  {
    if i == 0 {
      assert sub <= s;
    } else {
      ContainsSlice(s[1..], i - 1, sub);
      assert s[1..][i - 1..i - 1 + |sub|] == s[i..i + |sub|];
    }
  }

  /** A substring with a character that `s` lacks is not contained in `s`. */
  lemma NotContainedByMissingChar(s: string, sub: string, c: char)
    requires c in sub && c !in s
    ensures !Contains(s, sub)
  {
    if Contains(s, sub) {
      ContainsChar(s, sub, c);
    }
  }

  // ---------------------------------------------------------------------
  // strings.TrimSpace

  /** Drops the leading `unicode.IsSpace` runes. */
  function TrimLeft(s: string): (r: string)
    ensures |r| <= |s| && r == s[|s| - |r|..]
    ensures |r| > 0 ==> !IsUnicodeSpace(r[0])
    ensures |s| > 0 && !IsUnicodeSpace(s[0]) ==> r == s
  {
    if |s| > 0 && IsUnicodeSpace(s[0]) then TrimLeft(s[1..]) else s
  }

  /** Only white space is dropped at the start. */
  lemma TrimLeftDropsSpace(s: string)
    ensures forall i :: 0 <= i < |s| - |TrimLeft(s)| ==> IsUnicodeSpace(s[i])
  {
    forall i | 0 <= i < |s| - |TrimLeft(s)|
      ensures IsUnicodeSpace(s[i])
    {
      TrimLeftDropped(s, i);
    }
  }

  lemma {:induction false} TrimLeftDropped(s: string, i: nat)
    requires i < |s| - |TrimLeft(s)|
    ensures IsUnicodeSpace(s[i])
    decreases i
  {
    assert IsUnicodeSpace(s[0]);
    if i > 0 {
      var t := s[1..];
      assert TrimLeft(s) == TrimLeft(t);
      TrimLeftDropped(t, i - 1);
      assert t[i - 1] == s[i];
    }
  }

  /** Drops the trailing `unicode.IsSpace` runes. */
  function TrimRight(s: string): (r: string)
    ensures |r| <= |s| && r == s[..|r|]
    ensures |r| > 0 ==> !IsUnicodeSpace(r[|r| - 1])
    ensures |s| > 0 && !IsUnicodeSpace(s[|s| - 1]) ==> r == s
    ensures |s| > 0 && !IsUnicodeSpace(s[0]) ==> |r| > 0 && r[0] == s[0]
  {
    if |s| > 0 && IsUnicodeSpace(s[|s| - 1]) then TrimRight(s[..|s| - 1]) else s
  }

  /** Only white space is dropped at the end. */
  lemma {:induction false} TrimRightDropsSpace(s: string)
    ensures forall i :: |TrimRight(s)| <= i < |s| ==> IsUnicodeSpace(s[i])
    decreases |s|
  {
    if |s| > 0 && IsUnicodeSpace(s[|s| - 1]) {
      TrimRightDropsSpace(s[..|s| - 1]);
      forall i | |TrimRight(s)| <= i < |s| - 1
        ensures IsUnicodeSpace(s[i])
      {
        assert s[i] == s[..|s| - 1][i];
      }
    }
  }

  predicate IsTrimmed(s: string) {
    |s| == 0 || (!IsUnicodeSpace(s[0]) && !IsUnicodeSpace(s[|s| - 1]))
  }

  /** `strings.TrimSpace`: the slice of `s` left after removing the leading and
      trailing white space; text that is already trimmed is returned unchanged. */
  function TrimSpace(s: string): (r: string)
    ensures IsTrimmed(r)
    ensures IsTrimmed(s) ==> r == s
    ensures |s| > 0 && !IsUnicodeSpace(s[0]) ==> |r| > 0 && r[0] == s[0]
    ensures |r| == 0 <==> forall i :: 0 <= i < |s| ==> IsUnicodeSpace(s[i])
  {
    var t := TrimLeft(s);
    var r := TrimRight(t);
    assert |r| > 0 ==> r[0] == t[0];
    TrimLeftDropsSpace(s);
    r
  }

  /** The trimmed text is a slice of the original, and what lies before and
      after that slice is white space. */
  lemma TrimSpaceIsSlice(s: string) returns (k: nat)
    ensures k + |TrimSpace(s)| <= |s| && TrimSpace(s) == s[k..k + |TrimSpace(s)|]
    ensures forall i :: 0 <= i < k ==> IsUnicodeSpace(s[i])
    ensures forall i :: k + |TrimSpace(s)| <= i < |s| ==> IsUnicodeSpace(s[i])
  {
    var t := TrimLeft(s);
    k := |s| - |t|;
    TrimLeftDropsSpace(s);
    TrimRightDropsSpace(t);
    SliceOfSuffix(s, t, TrimRight(t), k);
  }

  /** A prefix of a suffix of `s`, followed by white space in that suffix. */
  lemma SliceOfSuffix(s: string, t: string, r: string, k: nat)
    requires k <= |s| && t == s[k..] && |r| <= |t| && r == t[..|r|]
    requires forall i :: |r| <= i < |t| ==> IsUnicodeSpace(t[i])
    ensures k + |r| <= |s| && r == s[k..k + |r|]
    ensures forall i :: k + |r| <= i < |s| ==> IsUnicodeSpace(s[i])
  {
    assert s[k..][..|r|] == s[k..k + |r|];
    forall i | k + |r| <= i < |s|
      ensures IsUnicodeSpace(s[i])
    {
      assert s[i] == t[i - k];
    }
  }

  /** Trimming keeps the spacing properties of the text. */
  lemma TrimKeepsSpacing(s: string, marks: set<char>)
    ensures NoDoubleSpace(s) ==> NoDoubleSpace(TrimSpace(s))
    ensures SpacesAreBlanks(s) ==> SpacesAreBlanks(TrimSpace(s))
    ensures NoSpaceAfter(s, marks) ==> NoSpaceAfter(TrimSpace(s), marks)
    ensures NoSpaceBefore(s, marks) ==> NoSpaceBefore(TrimSpace(s), marks)
  {
    var k := TrimSpaceIsSlice(s);
    var r := TrimSpace(s);
    assert forall i :: 0 <= i < |r| ==> r[i] == s[k + i];
    SliceKeepsSpacing(s, r, k, marks);
  }

  // ---------------------------------------------------------------------
  // Properties of adjacent characters, preserved by slicing and concatenation

  /** No two regexp spaces are adjacent. */
  predicate NoDoubleSpace(s: string) {
    forall i :: 0 <= i < |s| - 1 && IsRegexSpace(s[i]) ==> !IsRegexSpace(s[i + 1])
  }

  /** Every regexp space in `s` is the blank ' '. */
  predicate SpacesAreBlanks(s: string) {
    forall i :: 0 <= i < |s| && IsRegexSpace(s[i]) ==> s[i] == ' '
  }

  /** No regexp space follows a character of `marks`. */
  predicate NoSpaceAfter(s: string, marks: set<char>) {
    forall i :: 0 <= i < |s| - 1 && s[i] in marks ==> !IsRegexSpace(s[i + 1])
  }

  /** No regexp space precedes a character of `marks`. */
  predicate NoSpaceBefore(s: string, marks: set<char>) {
    forall i :: 1 <= i < |s| && s[i] in marks ==> !IsRegexSpace(s[i - 1])
  }

  /** A piece of a text keeps the spacing properties of the text. */
  lemma SliceKeepsSpacing(s: string, r: string, k: nat, marks: set<char>)
    requires k + |r| <= |s| && forall i :: 0 <= i < |r| ==> r[i] == s[k + i]
    ensures NoDoubleSpace(s) ==> NoDoubleSpace(r)
    ensures SpacesAreBlanks(s) ==> SpacesAreBlanks(r)
    ensures NoSpaceAfter(s, marks) ==> NoSpaceAfter(r, marks)
    ensures NoSpaceBefore(s, marks) ==> NoSpaceBefore(r, marks)
  {
  }

  /** The spacing properties of a rune followed by a text. */
  lemma ConsSpacing(c: char, t: string, marks: set<char>)
    ensures NoDoubleSpace(t) && !(IsRegexSpace(c) && |t| > 0 && IsRegexSpace(t[0]))
      ==> NoDoubleSpace([c] + t)
    ensures SpacesAreBlanks(t) && (IsRegexSpace(c) ==> c == ' ') ==> SpacesAreBlanks([c] + t)
    ensures NoSpaceAfter(t, marks) && !(c in marks && |t| > 0 && IsRegexSpace(t[0]))
      ==> NoSpaceAfter([c] + t, marks)
    ensures NoSpaceBefore(t, marks) && !(IsRegexSpace(c) && |t| > 0 && t[0] in marks)
      ==> NoSpaceBefore([c] + t, marks)
  {
    ConsNoDoubleSpace(c, t);
    ConsBlanks(c, t);
    ConsNoSpaceAfter(c, t, marks);
    ConsNoSpaceBefore(c, t, marks);
  }

  lemma ConsNoDoubleSpace(c: char, t: string)
    ensures NoDoubleSpace(t) && !(IsRegexSpace(c) && |t| > 0 && IsRegexSpace(t[0]))
      ==> NoDoubleSpace([c] + t)
  {
    var s := [c] + t;
    assert forall i :: 1 <= i < |s| ==> s[i] == t[i - 1];
  }

  lemma ConsBlanks(c: char, t: string)
    ensures SpacesAreBlanks(t) && (IsRegexSpace(c) ==> c == ' ') ==> SpacesAreBlanks([c] + t)
  {
    var s := [c] + t;
    assert forall i :: 1 <= i < |s| ==> s[i] == t[i - 1];
  }

  lemma ConsNoSpaceAfter(c: char, t: string, marks: set<char>)
    ensures NoSpaceAfter(t, marks) && !(c in marks && |t| > 0 && IsRegexSpace(t[0]))
      ==> NoSpaceAfter([c] + t, marks)
  {
    var s := [c] + t;
    assert forall i :: 1 <= i < |s| ==> s[i] == t[i - 1];
  }

  lemma ConsNoSpaceBefore(c: char, t: string, marks: set<char>)
    ensures NoSpaceBefore(t, marks) && !(IsRegexSpace(c) && |t| > 0 && t[0] in marks)
      ==> NoSpaceBefore([c] + t, marks)
  {
    var s := [c] + t;
    assert forall i :: 1 <= i < |s| ==> s[i] == t[i - 1];
  }

  // ---------------------------------------------------------------------
  // strings.Fields and strings.Join

  /** A field: a non-empty run of non-space runes. */
  predicate IsField(w: string) {
    |w| > 0 && forall j :: 0 <= j < |w| ==> !IsUnicodeSpace(w[j])
  }

  /** Length of the run of non-space runes at the start of `s`. */
  function WordLen(s: string): (n: nat)
    ensures n <= |s|
    ensures n < |s| ==> IsUnicodeSpace(s[n])
    ensures |s| > 0 && !IsUnicodeSpace(s[0]) <==> n > 0
  {
    if |s| > 0 && !IsUnicodeSpace(s[0]) then 1 + WordLen(s[1..]) else 0
  }

  lemma {:induction false} WordLenIsField(s: string)
    requires WordLen(s) > 0
    ensures IsField(s[..WordLen(s)])
  {
    var n := WordLen(s);
    if n > 1 {
      WordLenIsField(s[1..]);
      var w := s[..n];
      assert forall j :: 1 <= j < n ==> w[j] == s[1..][..n - 1][j - 1];
    }
  }

  /** `strings.Fields`: the maximal runs of non-space runes, in order. */
  function Fields(s: string): (r: seq<string>)
    decreases |s|
  {
    var t := TrimLeft(s);
    if |t| == 0 then []
    else
      var n := WordLen(t);
      [t[..n]] + Fields(t[n..])
  }

  /** Every piece `strings.Fields` returns is a field. */
  lemma {:induction false} FieldsAreFields(s: string)
    ensures forall k :: 0 <= k < |Fields(s)| ==> IsField(Fields(s)[k])
    decreases |s|
  {
    var t := TrimLeft(s);
    if |t| > 0 {
      var n := WordLen(t);
      var w := t[..n];
      WordLenIsField(t);
      FieldsAreFields(t[n..]);
      var rest := Fields(t[n..]);
      assert Fields(s) == [w] + rest;
      forall k | 0 <= k < |Fields(s)|
        ensures IsField(Fields(s)[k])
      {
        if k > 0 {
          assert Fields(s)[k] == rest[k - 1];
        }
      }
    }
  }

  /** Every rune of `w` is a rune of `s`. */
  predicate RunesFrom(w: string, s: string) {
    forall c :: c in w ==> c in s
  }

  /** Every rune of every piece is a rune of `s`. */
  predicate AllRunesFrom(ws: seq<string>, s: string) {
    forall k :: 0 <= k < |ws| ==> RunesFrom(ws[k], s)
  }

  /** Every rune of every field is a rune of the text. */
  lemma {:induction false} FieldsRunesFrom(s: string)
    ensures AllRunesFrom(Fields(s), s)
    decreases |s|
  {
    var t := TrimLeft(s);
    if |t| > 0 {
      var n := WordLen(t);
      var d := |s| - |t|;
      FieldsRunesFrom(t[n..]);
      FieldsUnfold(s);
      TrimmedPieces(s, t, n, d);
      RunesStep(s, t[..n], Fields(t[n..]), t[n..], d, n);
    }
  }

  /** A slice of `s` followed by pieces made of runes of a suffix of `s`. */
  lemma RunesStep(s: string, w: string, rest: seq<string>, u: string, d: nat, n: nat)
    requires d + n <= |s| && w == s[d..d + n] && u == s[d + n..]
    requires AllRunesFrom(rest, u)
    ensures AllRunesFrom([w] + rest, s)
  {
    RunesFromSlice(s, d, d + n);
    AllRunesFromSuffix(rest, u, s, d + n);
    AllRunesFromCons(w, rest, s);
  }

  /** One step of `strings.Fields`: the first field, then the fields of
      what follows it. */
  lemma FieldsUnfold(s: string)
    requires |TrimLeft(s)| > 0
    ensures var t := TrimLeft(s);
      Fields(s) == [t[..WordLen(t)]] + Fields(t[WordLen(t)..])
  {
  }

  lemma TrimmedPieces(s: string, t: string, n: nat, d: nat)
    requires d <= |s| && t == s[d..] && n <= |t|
    ensures t[..n] == s[d..d + n] && t[n..] == s[d + n..]
  {
    assert forall i :: 0 <= i < n ==> t[..n][i] == s[d..d + n][i];
    assert forall i :: 0 <= i < |t| - n ==> t[n..][i] == s[d + n..][i];
  }

  lemma AllRunesFromSuffix(ws: seq<string>, u: string, s: string, d: nat)
    requires AllRunesFrom(ws, u) && d <= |s| && u == s[d..]
    ensures AllRunesFrom(ws, s)
  {
    forall k | 0 <= k < |ws|
      ensures RunesFrom(ws[k], s)
    {
      RunesFromSuffix(ws[k], u, s, d);
    }
  }

  lemma AllRunesFromCons(w: string, ws: seq<string>, s: string)
    requires RunesFrom(w, s) && AllRunesFrom(ws, s)
    ensures AllRunesFrom([w] + ws, s)
  {
    forall k | 0 <= k < |[w] + ws|
      ensures RunesFrom(([w] + ws)[k], s)
    {
      if k > 0 {
        assert ([w] + ws)[k] == ws[k - 1];
      }
    }
  }

  lemma RunesFromSlice(s: string, i: nat, j: nat)
    requires i <= j <= |s|
    ensures RunesFrom(s[i..j], s)
  {
    forall c | c in s[i..j]
      ensures c in s
    {
      var k :| 0 <= k < j - i && s[i..j][k] == c;
      assert s[i + k] == c;
    }
  }

  lemma RunesFromSuffix(w: string, u: string, s: string, d: nat)
    requires RunesFrom(w, u) && d <= |s| && u == s[d..]
    ensures RunesFrom(w, s)
  {
    forall c | c in w
      ensures c in s
    {
      var i :| 0 <= i < |u| && u[i] == c;
      assert s[d + i] == c;
    }
  }

  /** `strings.Join`. */
  function Join(words: seq<string>, sep: string): string {
    if |words| == 0 then ""
    else if |words| == 1 then words[0]
    else words[0] + sep + Join(words[1..], sep)
  }

  lemma {:induction false} JoinStartsWithFirst(words: seq<string>, sep: string)
    requires |words| > 0
    ensures words[0] <= Join(words, sep)
  {
  }

  /** Splitting the single-space join of fields gives the fields back. */
  lemma {:induction false} FieldsOfJoin(words: seq<string>)
    requires forall k :: 0 <= k < |words| ==> IsField(words[k])
    ensures Fields(Join(words, " ")) == words
    decreases |words|
  {
    if |words| == 1 {
      FieldsOfFieldThen(words[0], "");
      assert words[0] + "" == words[0];
    } else if |words| > 1 {
      FieldsOfJoin(words[1..]);
      FieldsOfJoinStep(words);
    }
  }

  lemma FieldsOfJoinStep(words: seq<string>)
    requires |words| > 1 && IsField(words[0])
    requires Fields(Join(words[1..], " ")) == words[1..]
    ensures Fields(Join(words, " ")) == words
  {
    JoinUnfold(words);
    FieldsOfFieldBlankJoined(words, Join(words[1..], " "), Join(words, " "));
  }

  lemma FieldsOfFieldBlankJoined(words: seq<string>, rest: string, joined: string)
    requires |words| > 1 && IsField(words[0])
    requires Fields(rest) == words[1..]
    requires joined == words[0] + (" " + rest)
    ensures Fields(joined) == words
  {
    HeadTail(words);
    FieldsOfFieldBlank(words[0], rest, words[1..]);
  }

  lemma HeadTail<T>(xs: seq<T>)
    requires |xs| > 0
    ensures [xs[0]] + xs[1..] == xs
  {
  }

  lemma JoinUnfold(words: seq<string>)
    requires |words| > 1
    ensures Join(words, " ") == words[0] + (" " + Join(words[1..], " "))
  {
  }

  lemma FieldsOfFieldBlank(w: string, rest: string, ws: seq<string>)
    requires IsField(w)
    requires Fields(rest) == ws
    ensures Fields(w + (" " + rest)) == [w] + ws
  {
    assert IsUnicodeSpace((" " + rest)[0]);
    FieldsOfFieldThen(w, " " + rest);
    FieldsSkipsBlank(rest);
  }

  /** A field followed by a space (or by nothing) is split off whole. */
  lemma FieldsOfFieldThen(w: string, tail: string)
    requires IsField(w)
    requires |tail| == 0 || IsUnicodeSpace(tail[0])
    ensures Fields(w + tail) == [w] + Fields(tail)
  {
    var s := w + tail;
    assert TrimLeft(s) == s;
    WordLenOfField(w, tail);
    assert s[..|w|] == w && s[|w|..] == tail;
  }

  lemma {:induction false} WordLenOfField(w: string, tail: string)
    requires IsField(w)
    requires |tail| == 0 || IsUnicodeSpace(tail[0])
    ensures WordLen(w + tail) == |w|
    decreases |w|
  {
    var s := w + tail;
    if |w| > 1 {
      assert s[1..] == w[1..] + tail;
      WordLenOfField(w[1..], tail);
    } else {
      assert s[1..] == tail;
    }
  }

  lemma FieldsSkipsBlank(s: string)
    ensures Fields(" " + s) == Fields(s)
  {
    assert (" " + s)[1..] == s;
    assert TrimLeft(" " + s) == TrimLeft(s);
    assert TrimLeft(TrimLeft(s)) == TrimLeft(s);
  }

  /** Every run of white space replaced by one blank: the reference reading
      of splitting a text into fields and joining them with blanks. */
  function CollapseSpaceRuns(s: string): (r: string)
    decreases |s|
  {
    if |s| == 0 then ""
    else if IsUnicodeSpace(s[0]) then
      " " + CollapseSpaceRuns(TrimLeft(s))
    else [s[0]] + CollapseSpaceRuns(s[1..])
  }

  /** The converse round trip: joining the fields of any text with blanks
      gives the text with every white-space run collapsed to one blank and
      the ends trimmed. */
  lemma JoinOfFields(s: string)
    ensures Join(Fields(s), " ") == TrimSpace(CollapseSpaceRuns(s))
  {
    var u := TrimLeft(s);
    JoinOfFieldsFrom(u);
    FieldsOfTrimmed(s);
    var c, cu := CollapseSpaceRuns(s), CollapseSpaceRuns(u);
    if |s| > 0 && IsUnicodeSpace(s[0]) {
      CollapseAtSpace(s);
    } else {
      assert u == s;
    }
    TrimAfterCollapse(c, cu, Join(Fields(u), " "), EndBlank(u));
  }

  /** One blank if `t` ends in white space, else nothing. */
  function EndBlank(t: string): string {
    if |t| > 0 && IsUnicodeSpace(t[|t| - 1]) then " " else ""
  }

  /** Trimming a collapsed text, possibly behind one more blank. */
  lemma TrimAfterCollapse(c: string, cu: string, g: string, e: string)
    requires c == " " + cu || c == cu
    requires cu == g + e && IsTrimmed(g) && (e == "" || e == " ")
    ensures TrimSpace(c) == g
  {
    if c != cu {
      TrimSpaceDropsBlank(cu);
    }
    TrimSpaceDropsEnd(g, e);
  }

  /** On a text that starts a field (or is empty), collapsing gives the
      blank-joined fields, plus one blank if the text ends in white space. */
  lemma {:induction false} JoinOfFieldsFrom(t: string)
    requires |t| == 0 || !IsUnicodeSpace(t[0])
    ensures CollapseSpaceRuns(t) == Join(Fields(t), " ") + EndBlank(t)
    ensures IsTrimmed(Join(Fields(t), " "))
    ensures |t| > 0 ==> |Join(Fields(t), " ")| > 0
    decreases |t|
  {
    if |t| > 0 {
      var w, rest := SplitField(t);
      if |rest| == 0 {
        StepLastField(t, w, rest);
      } else {
        var u := TrimLeft(rest);
        JoinOfFieldsFrom(u);
        AfterField(t, w, rest);
        if |u| == 0 {
          StepAllBlank(t, w, rest);
        } else {
          StepToField(t, w, rest, u);
        }
      }
    }
  }

  /** A text that starts a field is that field, then the rest. */
  lemma SplitField(t: string) returns (w: string, rest: string)
    requires |t| > 0 && !IsUnicodeSpace(t[0])
    ensures t == w + rest && IsField(w) && (|rest| == 0 || IsUnicodeSpace(rest[0]))
    ensures Fields(t) == [w] + Fields(rest)
    ensures CollapseSpaceRuns(t) == w + CollapseSpaceRuns(rest)
  {
    var n := WordLen(t);
    w, rest := t[..n], t[n..];
    assert TrimLeft(t) == t;
    FieldsUnfold(t);
    WordLenIsField(t);
    assert t == w + rest;
    CollapseWord(w, rest);
  }

  /** The field is the whole text. */
  lemma StepLastField(t: string, w: string, rest: string)
    requires t == w + rest && IsField(w) && |rest| == 0
    requires Fields(t) == [w] + Fields(rest)
    requires CollapseSpaceRuns(t) == w + CollapseSpaceRuns(rest)
    ensures CollapseSpaceRuns(t) == Join(Fields(t), " ") + EndBlank(t)
    ensures IsTrimmed(Join(Fields(t), " ")) && |Join(Fields(t), " ")| > 0
  {
    assert Fields(rest) == [] && CollapseSpaceRuns(rest) == "";
    assert t == w && Fields(t) == [w];
    JoinOfOne(w, Fields(t));
  }

  /** After a field comes white space, which the fields skip and the
      collapse writes as one blank. */
  lemma AfterField(t: string, w: string, rest: string)
    requires t == w + rest && |rest| > 0 && IsUnicodeSpace(rest[0])
    requires Fields(t) == [w] + Fields(rest)
    requires CollapseSpaceRuns(t) == w + CollapseSpaceRuns(rest)
    ensures Fields(t) == [w] + Fields(TrimLeft(rest))
    ensures CollapseSpaceRuns(t) == w + (" " + CollapseSpaceRuns(TrimLeft(rest)))
    ensures |t| > 0 && t[|t| - 1] == rest[|rest| - 1]
  {
    FieldsOfTrimmed(rest);
    CollapseAtSpace(rest);
  }

  /** A field followed by nothing but white space. */
  lemma StepAllBlank(t: string, w: string, rest: string)
    requires IsField(w) && |t| > 0 && |rest| > 0 && t[|t| - 1] == rest[|rest| - 1]
    requires |TrimLeft(rest)| == 0
    requires Fields(t) == [w] + Fields(TrimLeft(rest))
    requires CollapseSpaceRuns(t) == w + (" " + CollapseSpaceRuns(TrimLeft(rest)))
    ensures CollapseSpaceRuns(t) == Join(Fields(t), " ") + EndBlank(t)
    ensures IsTrimmed(Join(Fields(t), " ")) && |Join(Fields(t), " ")| > 0
  {
    TrimLeftDropsSpace(rest);
    assert IsUnicodeSpace(rest[|rest| - 1]);
    JoinOfOne(w, Fields(t));
    BlankEnd(w, CollapseSpaceRuns(t), CollapseSpaceRuns(TrimLeft(rest)), Join(Fields(t), " "));
  }

  /** A field, white space, and a further field. */
  lemma StepToField(t: string, w: string, rest: string, u: string)
    requires IsField(w) && |t| > 0 && |rest| > 0 && t[|t| - 1] == rest[|rest| - 1]
    requires u == TrimLeft(rest) && |u| > 0
    requires Fields(t) == [w] + Fields(u)
    requires CollapseSpaceRuns(t) == w + (" " + CollapseSpaceRuns(u))
    requires CollapseSpaceRuns(u) == Join(Fields(u), " ") + EndBlank(u)
    requires IsTrimmed(Join(Fields(u), " ")) && |Join(Fields(u), " ")| > 0
    ensures CollapseSpaceRuns(t) == Join(Fields(t), " ") + EndBlank(t)
    ensures IsTrimmed(Join(Fields(t), " ")) && |Join(Fields(t), " ")| > 0
  {
    SuffixLast(rest, u);
    var ws := Fields(u);
    var g := Join(ws, " ");
    var e := EndBlank(t);
    assert EndBlank(u) == e;
    assert |ws| > 0;
    JoinOfCons(w, ws);
    BlankJoinAssoc(w, g, e, CollapseSpaceRuns(t), CollapseSpaceRuns(u), Join(Fields(t), " "));
  }

  /** A non-empty suffix ends with the same rune as the text. */
  lemma SuffixLast(s: string, u: string)
    requires |u| > 0 && |u| <= |s| && u == s[|s| - |u|..]
    ensures u[|u| - 1] == s[|s| - 1]
  {
  }

  lemma BlankEnd(w: string, ct: string, cu: string, jt: string)
    requires ct == w + (" " + cu) && cu == "" && jt == w
    ensures ct == jt + " "
  {
  }

  lemma BlankJoinAssoc(w: string, g: string, e: string, ct: string, cu: string, jt: string)
    requires ct == w + (" " + cu) && cu == g + e && jt == w + (" " + g)
    ensures ct == jt + e
  {
  }

  /** At white space, collapsing writes one blank and skips the run. */
  lemma CollapseAtSpace(s: string)
    requires |s| > 0 && IsUnicodeSpace(s[0])
    ensures CollapseSpaceRuns(s) == " " + CollapseSpaceRuns(TrimLeft(s))
  {
  }

  lemma JoinOfOne(w: string, ws: seq<string>)
    requires IsField(w) && ws == [w]
    ensures Join(ws, " ") == w && IsTrimmed(w)
  {
  }

  /** A field joined before a non-empty trimmed join stays trimmed. */
  lemma JoinOfCons(w: string, ws: seq<string>)
    requires IsField(w) && |ws| > 0
    requires IsTrimmed(Join(ws, " ")) && |Join(ws, " ")| > 0
    ensures Join([w] + ws, " ") == w + (" " + Join(ws, " "))
    ensures IsTrimmed(Join([w] + ws, " "))
  {
    JoinUnfold([w] + ws);
    assert ([w] + ws)[1..] == ws;
  }

  /** A run of non-space runes is copied as it is. */
  lemma {:induction false} CollapseWord(w: string, rest: string)
    requires forall j :: 0 <= j < |w| ==> !IsUnicodeSpace(w[j])
    ensures CollapseSpaceRuns(w + rest) == w + CollapseSpaceRuns(rest)
    decreases |w|
  {
    if |w| > 0 {
      var x, v := w + rest, w[1..];
      assert x[0] == w[0] && x[1..] == v + rest;
      CollapseAtRune(x);
      CollapseWord(v, rest);
      ConsAssoc(w, v, CollapseSpaceRuns(rest));
    } else {
      assert w + rest == rest;
    }
  }

  /** Off white space, collapsing copies the rune. */
  lemma CollapseAtRune(s: string)
    requires |s| > 0 && !IsUnicodeSpace(s[0])
    ensures CollapseSpaceRuns(s) == [s[0]] + CollapseSpaceRuns(s[1..])
  {
  }

  lemma ConsAssoc(w: string, v: string, c: string)
    requires |w| > 0 && v == w[1..]
    ensures [w[0]] + (v + c) == w + c
  {
  }

  /** The fields of a text are the fields of the text without its leading
      white space. */
  lemma FieldsOfTrimmed(s: string)
    ensures Fields(s) == Fields(TrimLeft(s))
    ensures TrimLeft(TrimLeft(s)) == TrimLeft(s)
  {
  }

  lemma TrimSpaceDropsBlank(x: string)
    ensures TrimSpace(" " + x) == TrimSpace(x)
  {
    assert (" " + x)[1..] == x;
    assert TrimLeft(" " + x) == TrimLeft(x);
  }

  /** A trimmed text followed by at most one blank trims to itself. */
  lemma TrimSpaceDropsEnd(g: string, e: string)
    requires IsTrimmed(g) && (e == "" || e == " ")
    ensures TrimSpace(g + e) == g
  {
    if e == "" {
      assert g + e == g;
    } else if |g| == 0 {
      assert g + e == " ";
    } else {
      var s := g + e;
      assert TrimLeft(s) == s;
      assert s[..|s| - 1] == g;
      assert TrimRight(s) == TrimRight(g) == g;
    }
  }

  // ---------------------------------------------------------------------
  // UTF-8, for the byte-oriented `len` and slicing of Go strings

  newtype byte = x: int | 0 <= x < 256

  /** The UTF-8 encoding of one rune. */
  function EncodeRune(c: char): (b: seq<byte>)
    ensures 1 <= |b| <= 4
    ensures |b| == 1 <==> c as int < 0x80
  {
    var n := c as int;
    if n < 0x80 then [n as byte]
    else if n < 0x800 then [(0xC0 + n / 64) as byte, (0x80 + n % 64) as byte]
    else if n < 0x10000 then
      [(0xE0 + n / 4096) as byte, (0x80 + (n / 64) % 64) as byte, (0x80 + n % 64) as byte]
    else
      [(0xF0 + n / 262144) as byte, (0x80 + (n / 4096) % 64) as byte,
       (0x80 + (n / 64) % 64) as byte, (0x80 + n % 64) as byte]
  }

  /** The bytes of a Go string holding the runes `s`. */
  function Utf8(s: string): (b: seq<byte>)
    ensures |b| >= |s|
  {
    if |s| == 0 then [] else EncodeRune(s[0]) + Utf8(s[1..])
  }

  /** The byte length equals the rune count exactly when every rune is ASCII. */
  lemma {:induction false} Utf8LengthIsRuneCount(s: string)
    ensures |Utf8(s)| == |s| <==> forall i :: 0 <= i < |s| ==> s[i] as int < 0x80
  {
    if |s| > 0 {
      Utf8LengthIsRuneCount(s[1..]);
      assert forall i :: 1 <= i < |s| ==> s[i] == s[1..][i - 1];
    }
  }
}
