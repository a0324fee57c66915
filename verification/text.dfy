/** The Python string primitives the cleaning code relies on, written out
    over `seq<char>`: character classes, `str.lower()`, `str.strip()`, the
    `re.sub(r'\s+', ' ', s)` collapse and `str.title()`.

    Character classes are restricted to Latin-1, and letter case to ASCII
    plus the pair É/é, which is the only non-ASCII letter the cleaning
    keywords contain. */
module Text {

  const SmallEAcute: char := '\U{E9}'
  const CapitalEAcute: char := '\U{C9}'

  /** `str.isspace()` (and the regex class `\s`) on Latin-1: the ASCII
      whitespace TAB..CR and SPACE, the separators U+001C..U+001F, NEXT LINE
      and NO-BREAK SPACE. */
  predicate IsSpace(c: char) {
    c == ' ' || '\t' <= c <= '\r' || '\U{1C}' <= c <= '\U{1F}' || c == '\U{85}' || c == '\U{A0}'
  }

  predicate IsUpperLetter(c: char) {
    'A' <= c <= 'Z' || c == CapitalEAcute
  }

  predicate IsLowerLetter(c: char) {
    'a' <= c <= 'z' || c == SmallEAcute
  }

  /** A character that has an upper- and a lower-case form. */
  predicate IsCased(c: char) {
    IsUpperLetter(c) || IsLowerLetter(c)
  }

  /** A character the regex class `\w` matches, on Latin-1: the ASCII
      letters, digits and `_`, and the Latin-1 characters for which
      `str.isalnum()` holds (ª, ², ³, µ, ¹, º, ¼, ½, ¾ and the letters
      À..ÿ other than × and ÷). */
  predicate IsWordChar(c: char) {
    || IsCased(c) || '0' <= c <= '9' || c == '_'
    || c == '\U{AA}' || c == '\U{B2}' || c == '\U{B3}' || c == '\U{B5}'
    || c == '\U{B9}' || c == '\U{BA}' || '\U{BC}' <= c <= '\U{BE}'
    || ('\U{C0}' <= c <= '\U{FF}' && c != '\U{D7}' && c != '\U{F7}')
  }

  function Lower(c: char): char {
    if 'A' <= c <= 'Z' then (c as int + 32) as char
    else if c == CapitalEAcute then SmallEAcute
    else c
  }

  function Upper(c: char): char {
    if 'a' <= c <= 'z' then (c as int - 32) as char
    else if c == SmallEAcute then CapitalEAcute
    else c
  }

  /** Case mapping changes no character class, and either mapping forgets
      the case the character had. */
  lemma CaseMapping(c: char)
    ensures Lower(Upper(c)) == Lower(c) && Upper(Lower(c)) == Upper(c)
    ensures Upper(Upper(c)) == Upper(c) && Lower(Lower(c)) == Lower(c)
    ensures IsCased(Lower(c)) == IsCased(c) && IsCased(Upper(c)) == IsCased(c)
    ensures IsWordChar(Lower(c)) == IsWordChar(c) && IsWordChar(Upper(c)) == IsWordChar(c)
    ensures IsSpace(Lower(c)) == IsSpace(c) && IsSpace(Upper(c)) == IsSpace(c)
  {
  }

  /** Two characters equal up to case have the same class and upper case. */
  lemma SameFold(a: char, b: char)
    requires Lower(a) == Lower(b)
    ensures Upper(a) == Upper(b)
    ensures IsCased(a) == IsCased(b) && IsWordChar(a) == IsWordChar(b) && IsSpace(a) == IsSpace(b)
  {
  }

  /** `x` and `y` are equal up to case, as a regex with IGNORECASE compares. */
  predicate CaseEq(x: string, y: string) {
    |x| == |y| && forall i :: 0 <= i < |x| ==> Lower(x[i]) == Lower(y[i])
  }

  lemma CaseEqTransitive(x: string, y: string, z: string)
    requires CaseEq(x, y) && CaseEq(y, z)
    ensures CaseEq(x, z)
  {
  }

  /** `str.lower()`. */
  function LowerStr(s: string): (r: string)
    ensures CaseEq(r, s)
    ensures forall i :: 0 <= i < |r| ==> !IsUpperLetter(r[i])
  {
    seq(|s|, i requires 0 <= i < |s| => Lower(s[i]))
  }

  /** `str.upper()`. */
  function UpperStr(s: string): (r: string)
    ensures CaseEq(r, s)
    ensures forall i :: 0 <= i < |r| ==> !IsLowerLetter(r[i])
  {
    seq(|s|, i requires 0 <= i < |s| => Upper(s[i]))
  }

  /** The non-whitespace characters of `s`, in order. */
  function NonSpace(s: string): string {
    if |s| == 0 then ""
    else (if IsSpace(s[0]) then "" else [s[0]]) + NonSpace(s[1..])
  }

  lemma {:induction false} NonSpaceAppend(a: string, b: string)
    ensures NonSpace(a + b) == NonSpace(a) + NonSpace(b)
    decreases |a|
  {
    if |a| == 0 {
      assert a + b == b;
    } else {
      assert (a + b)[0] == a[0];
      assert (a + b)[1..] == a[1..] + b;
      NonSpaceAppend(a[1..], b);
    }
  }

  lemma {:induction false} NonSpaceOfBlank(s: string)
    requires forall i :: 0 <= i < |s| ==> IsSpace(s[i])
    ensures NonSpace(s) == ""
    decreases |s|
  {
    if |s| > 0 {
      NonSpaceOfBlank(s[1..]);
    }
  }

  /** Changing the case of characters changes the text only up to case. */
  lemma {:induction false} NonSpaceCaseEq(x: string, y: string)
    requires CaseEq(x, y)
    ensures CaseEq(NonSpace(x), NonSpace(y))
    decreases |x|
  {
    if |x| > 0 {
      SameFold(x[0], y[0]);
      NonSpaceCaseEq(x[1..], y[1..]);
    }
  }

  /** `str.lstrip()`: the removed prefix is whitespace and what is left
      does not start with whitespace. */
  function TrimLeft(s: string): (r: string)
    ensures |r| <= |s| && r == s[|s| - |r|..]
    ensures |r| > 0 ==> !IsSpace(r[0])
    ensures forall i :: 0 <= i < |s| - |r| ==> IsSpace(s[i])
    decreases |s|
  {
    if |s| > 0 && IsSpace(s[0]) then TrimLeft(s[1..]) else s
  }

  /** `str.rstrip()`: the removed suffix is whitespace and what is left
      does not end with whitespace. */
  function TrimRight(s: string): (r: string)
    ensures |r| <= |s| && r == s[..|r|]
    ensures |r| > 0 ==> !IsSpace(r[|r| - 1])
    ensures forall i :: |r| <= i < |s| ==> IsSpace(s[i])
    decreases |s|
  {
    if |s| > 0 && IsSpace(s[|s| - 1]) then TrimRight(s[..|s| - 1]) else s
  }

  /** `str.strip()`: removes the leading and the trailing whitespace run
      and nothing else. */
  function Strip(s: string): (r: string)
    ensures |r| == 0 || (!IsSpace(r[0]) && !IsSpace(r[|r| - 1]))
    ensures NonSpace(r) == NonSpace(s)
    ensures exists i, j :: BlankOutside(s, i, j) && r == s[i..j]
  {
    var l := TrimLeft(s);
    TrimLeftKeepsText(s);
    TrimRightKeepsText(l);
    SliceBetweenBlanks(s, l, TrimRight(l));
    TrimRight(l)
  }

  /** Every character of `s` before `i` and from `j` on is whitespace. */
  predicate BlankOutside(s: string, i: int, j: int) {
    && 0 <= i <= j <= |s|
    && (forall k :: 0 <= k < i ==> IsSpace(s[k]))
    && (forall k :: j <= k < |s| ==> IsSpace(s[k]))
  }

  /** A prefix `r` of a suffix `l` of `s`, each cut off by whitespace only,
      is a slice of `s` between whitespace. */
  lemma SliceBetweenBlanks(s: string, l: string, r: string)
    requires |l| <= |s| && l == s[|s| - |l|..]
    requires forall k :: 0 <= k < |s| - |l| ==> IsSpace(s[k])
    requires |r| <= |l| && r == l[..|r|]
    requires forall k :: |r| <= k < |l| ==> IsSpace(l[k])
    ensures exists i, j :: BlankOutside(s, i, j) && r == s[i..j]
  {
    var i := |s| - |l|;
    var j := i + |r|;
    assert r == s[i..j];
    forall k | j <= k < |s|
      ensures IsSpace(s[k])
    {
      assert s[k] == l[k - i];
    }
  }

  lemma TrimLeftKeepsText(s: string)
    ensures NonSpace(TrimLeft(s)) == NonSpace(s)
  {
    var l := TrimLeft(s);
    var pad := s[..|s| - |l|];
    assert s == pad + l;
    NonSpaceOfBlank(pad);
    NonSpaceAppend(pad, l);
  }

  lemma TrimRightKeepsText(s: string)
    ensures NonSpace(TrimRight(s)) == NonSpace(s)
  {
    var r := TrimRight(s);
    var pad := s[|r|..];
    assert s == r + pad;
    NonSpaceOfBlank(pad);
    NonSpaceAppend(r, pad);
  }

  /** A string without surrounding whitespace is its own strip. */
  lemma StripUnpadded(s: string)
    requires |s| == 0 || (!IsSpace(s[0]) && !IsSpace(s[|s| - 1]))
    ensures Strip(s) == s
  {
  }

  /** No two whitespace characters are adjacent. */
  predicate NoDoubleSpace(s: string) {
    forall i :: 0 <= i < |s| - 1 ==> !(IsSpace(s[i]) && IsSpace(s[i + 1]))
  }

  /** Every whitespace character is a plain space. */
  predicate SpacesArePlain(s: string) {
    forall i :: 0 <= i < |s| && IsSpace(s[i]) ==> s[i] == ' '
  }

  /** `re.sub(r'\s+', ' ', s)`: each maximal whitespace run becomes one
      space. Read left to right, a whitespace character followed by another
      is dropped and the last one of the run becomes a plain space, so the
      result is empty only when `s` is. `CollapseShape` gives the layout of
      the result and `CollapseKeepsWords` its words. */
  function CollapseSpaces(s: string): (r: string)
    ensures |r| <= |s|
    ensures |r| == 0 <==> |s| == 0
    decreases |s|
  {
    if |s| == 0 then ""
    else if IsSpace(s[0]) && |s| > 1 && IsSpace(s[1]) then CollapseSpaces(s[1..])
    else [if IsSpace(s[0]) then ' ' else s[0]] + CollapseSpaces(s[1..])
  }

  /** The collapsed string starts and ends like `s`, has no two adjacent
      whitespace characters, and every whitespace character in it is a
      plain space. */
  lemma {:induction false} CollapseShape(s: string)
    ensures var r := CollapseSpaces(s);
      && (|r| > 0 ==> (IsSpace(r[0]) <==> IsSpace(s[0])))
      && (|r| > 0 ==> (IsSpace(r[|r| - 1]) <==> IsSpace(s[|s| - 1])))
      && NoDoubleSpace(r)
      && SpacesArePlain(r)
    decreases |s|
  {
    if |s| > 0 {
      var t := s[1..];
      var c := CollapseSpaces(t);
      CollapseShape(t);
      if |t| > 0 {
        assert t[0] == s[1] && t[|t| - 1] == s[|s| - 1];
      }
      if !(IsSpace(s[0]) && |s| > 1 && IsSpace(s[1])) {
        var h := if IsSpace(s[0]) then ' ' else s[0];
        assert CollapseSpaces(s) == [h] + c;
      }
    }
  }

  /** Collapsing keeps every non-whitespace character, in order. */
  lemma {:induction false} CollapseKeepsText(s: string)
    ensures NonSpace(CollapseSpaces(s)) == NonSpace(s)
    decreases |s|
  {
    if |s| > 0 {
      CollapseKeepsText(s[1..]);
      if !(IsSpace(s[0]) && |s| > 1 && IsSpace(s[1])) {
        var h := if IsSpace(s[0]) then ' ' else s[0];
        NonSpaceAppend([h], CollapseSpaces(s[1..]));
      }
    }
  }

  /** The longest prefix of `s` without whitespace. */
  function WordPrefix(s: string): (w: string)
    ensures |w| <= |s| && w == s[..|w|]
    ensures forall k :: 0 <= k < |w| ==> !IsSpace(w[k])
    ensures |w| < |s| ==> IsSpace(s[|w|])
    decreases |s|
  {
    if |s| == 0 || IsSpace(s[0]) then "" else [s[0]] + WordPrefix(s[1..])
  }

  /** A prefix without whitespace that is followed by whitespace or the end
      of `s` is the longest one. */
  lemma WordPrefixUnique(s: string, p: string)
    requires |p| <= |s| && p == s[..|p|]
    requires forall k :: 0 <= k < |p| ==> !IsSpace(p[k])
    requires |p| < |s| ==> IsSpace(s[|p|])
    ensures WordPrefix(s) == p
  {
  }

  /** Whitespace (or nothing) after `a` does not lengthen its first word. */
  lemma WordPrefixExtend(a: string, b: string)
    requires |b| == 0 || IsSpace(b[0])
    ensures WordPrefix(a + b) == WordPrefix(a)
  {
    var w := WordPrefix(a);
    assert (a + b)[..|w|] == w;
    if |w| == |a| && |b| > 0 {
      assert (a + b)[|w|] == b[0];
    }
    WordPrefixUnique(a + b, w);
  }

  /** The words of `s`: its maximal runs of non-whitespace characters, in
      order. */
  function Words(s: string): (ws: seq<string>)
    ensures forall k :: 0 <= k < |ws| ==> |ws[k]| > 0
    ensures forall k, t :: 0 <= k < |ws| && 0 <= t < |ws[k]| ==> !IsSpace(ws[k][t])
    decreases |s|
  {
    if |s| == 0 then []
    else if IsSpace(s[0]) then Words(s[1..])
    else
      var w := WordPrefix(s);
      [w] + Words(s[|w|..])
  }

  lemma {:induction false} WordsOfBlank(s: string)
    requires forall i :: 0 <= i < |s| ==> IsSpace(s[i])
    ensures Words(s) == []
    decreases |s|
  {
    if |s| > 0 {
      WordsOfBlank(s[1..]);
    }
  }

  /** A word followed by whitespace or nothing comes first. */
  lemma WordsPrepend(w: string, y: string)
    requires |w| > 0 && forall k :: 0 <= k < |w| ==> !IsSpace(w[k])
    requires |y| == 0 || IsSpace(y[0])
    ensures Words(w + y) == [w] + Words(y)
  {
    assert (w + y)[0] == w[0];
    WordPrefixExtend(w, y);
    WordPrefixUnique(w, w);
    assert (w + y)[|w|..] == y;
  }

  /** Whitespace appended to `a` adds no word. */
  lemma {:induction false} WordsAppendBlank(a: string, b: string)
    requires forall i :: 0 <= i < |b| ==> IsSpace(b[i])
    ensures Words(a + b) == Words(a)
    decreases |a|
  {
    if |a| == 0 {
      assert a + b == b;
      WordsOfBlank(b);
    } else if IsSpace(a[0]) {
      assert (a + b)[0] == a[0];
      assert (a + b)[1..] == a[1..] + b;
      WordsAppendBlank(a[1..], b);
    } else {
      var w := WordPrefix(a);
      assert (a + b)[0] == a[0];
      WordPrefixExtend(a, b);
      assert (a + b)[|w|..] == a[|w|..] + b;
      WordsAppendBlank(a[|w|..], b);
    }
  }

  /** Leading whitespace holds no word. */
  lemma {:induction false} WordsTrimLeft(s: string)
    ensures Words(TrimLeft(s)) == Words(s)
    decreases |s|
  {
    if |s| > 0 && IsSpace(s[0]) {
      WordsTrimLeft(s[1..]);
    }
  }

  lemma TrailingPad(l: string)
    ensures var r := TrimRight(l);
      l == r + l[|r|..] && forall i :: 0 <= i < |l[|r|..]| ==> IsSpace(l[|r|..][i])
  {
    var r := TrimRight(l);
    assert l == r + l[|r|..];
  }

  /** `str.strip()` keeps every word of `s`, unchanged and in order. */
  lemma StripKeepsWords(s: string)
    ensures Words(Strip(s)) == Words(s)
  {
    var l := TrimLeft(s);
    var r := TrimRight(l);
    var pad := l[|r|..];
    assert Strip(s) == r;
    TrailingPad(l);
    WordsAppendBlank(r, pad);
    WordsTrimLeft(s);
  }

  /** Collapsing copies a leading run without whitespace and goes on
      after it. */
  lemma {:induction false} CollapseThroughWord(w: string, y: string)
    requires forall k :: 0 <= k < |w| ==> !IsSpace(w[k])
    ensures CollapseSpaces(w + y) == w + CollapseSpaces(y)
    decreases |w|
  {
    if |w| == 0 {
      assert w + y == y;
    } else {
      var v := w + y;
      assert v[0] == w[0] && !IsSpace(v[0]);
      assert v[1..] == w[1..] + y;
      assert CollapseSpaces(v) == [w[0]] + CollapseSpaces(w[1..] + y);
      CollapseThroughWord(w[1..], y);
      assert w == [w[0]] + w[1..];
    }
  }

  /** Collapsing keeps every word of `s`, unchanged and in order: each
      whitespace run becomes one space and never disappears, since words on
      both sides of it stay apart. */
  lemma {:induction false} CollapseKeepsWords(s: string)
    ensures Words(CollapseSpaces(s)) == Words(s)
    decreases |s|
  {
    if |s| > 0 {
      if IsSpace(s[0]) {
        CollapseKeepsWords(s[1..]);
        if !(|s| > 1 && IsSpace(s[1])) {
          assert ([' '] + CollapseSpaces(s[1..]))[1..] == CollapseSpaces(s[1..]);
        }
      } else {
        var w := WordPrefix(s);
        var rest := s[|w|..];
        assert s == w + rest;
        CollapseThroughWord(w, rest);
        CollapseKeepsWords(rest);
        CollapseShape(rest);
        WordsPrepend(w, CollapseSpaces(rest));
      }
    }
  }

  /** A string that starts with a non-whitespace character has a word. */
  lemma WordsNonEmpty(s: string)
    requires |s| > 0 && !IsSpace(s[0])
    ensures |Words(s)| > 0 && Words(s)[0] == WordPrefix(s)
  {
  }

  /** A collapsed string opening with whitespace: one space, then nothing
      or a word. */
  lemma CollapsedSpaceHead(x: string)
    requires NoDoubleSpace(x) && SpacesArePlain(x) && |x| > 0 && IsSpace(x[0])
    ensures x == [' '] + x[1..]
    ensures NoDoubleSpace(x[1..]) && SpacesArePlain(x[1..]) && Words(x[1..]) == Words(x)
    ensures |x| > 1 ==> !IsSpace(x[1..][0]) && |Words(x)| > 0
  {
    if |x| > 1 {
      assert x[1..][0] == x[1];
      WordsNonEmpty(x[1..]);
    }
  }

  /** A suffix of a collapsed string is collapsed. */
  lemma CollapsedSuffix(x: string, n: int)
    requires NoDoubleSpace(x) && SpacesArePlain(x) && 0 <= n <= |x|
    ensures NoDoubleSpace(x[n..]) && SpacesArePlain(x[n..])
  {
    forall i | 0 <= i < |x[n..]|
      ensures x[n..][i] == x[n + i]
    {
    }
  }

  /** A collapsed string opening with a word: the word, then nothing or a
      space followed by nothing or another word. */
  lemma CollapsedWordHead(x: string)
    requires NoDoubleSpace(x) && SpacesArePlain(x) && |x| > 0 && !IsSpace(x[0])
    ensures var w := WordPrefix(x); var x1 := x[|w|..];
      && 0 < |w| && x == w + x1 && Words(x) == [w] + Words(x1)
      && NoDoubleSpace(x1) && SpacesArePlain(x1)
      && (|x1| > 0 ==> IsSpace(x1[0]) && IsSpace(x[|x| - 1]) == IsSpace(x1[|x1| - 1]))
      && (|x1| > 1 ==> |Words(x1)| > 0)
      && (|x1| == 0 ==> !IsSpace(x[|x| - 1]))
  {
    var w := WordPrefix(x);
    var x1 := x[|w|..];
    assert x == w + x1;
    CollapsedSuffix(x, |w|);
    if |x1| > 1 {
      WordAfterSpace(x1);
    }
    if |x1| == 0 {
      assert x[|x| - 1] == w[|w| - 1];
    }
  }

  /** In a collapsed string, a space followed by more text is followed by a
      word. */
  lemma WordAfterSpace(x: string)
    requires NoDoubleSpace(x) && |x| > 1 && IsSpace(x[0])
    ensures |Words(x)| > 0
  {
    assert x[1..][0] == x[1];
    WordsNonEmpty(x[1..]);
  }

  /** Collapsed strings are told apart by their words and by whether they
      are empty, start or end with whitespace. */
  lemma {:induction false} CollapsedUnique(x: string, y: string)
    requires NoDoubleSpace(x) && SpacesArePlain(x) && NoDoubleSpace(y) && SpacesArePlain(y)
    requires Words(x) == Words(y)
    requires |x| == 0 <==> |y| == 0
    requires |x| > 0 && |y| > 0 ==>
      IsSpace(x[0]) == IsSpace(y[0]) && IsSpace(x[|x| - 1]) == IsSpace(y[|y| - 1])
    ensures x == y
    decreases |x| + |y|
  {
    if |x| > 0 {
      if IsSpace(x[0]) {
        CollapsedSpaceHead(x);
        CollapsedSpaceHead(y);
        CollapsedUnique(x[1..], y[1..]);
      } else {
        CollapsedWordHead(x);
        CollapsedWordHead(y);
        var w := WordPrefix(x);
        assert w == Words(x)[0] == WordPrefix(y);
        assert Words(x[|w|..]) == Words(x)[1..];
        CollapsedUnique(x[|w|..], y[|w|..]);
      }
    }
  }

  /** The contract of `CollapseSpaces` together with `CollapseKeepsWords`
      leaves one possible result: any string meeting it is the collapse. */
  lemma CollapseDetermined(s: string, r: string)
    requires NoDoubleSpace(r) && SpacesArePlain(r) && Words(r) == Words(s)
    requires |r| == 0 <==> |s| == 0
    requires |r| > 0 ==> (IsSpace(r[0]) <==> IsSpace(s[0]))
    requires |r| > 0 ==> (IsSpace(r[|r| - 1]) <==> IsSpace(s[|s| - 1]))
    ensures r == CollapseSpaces(s)
  {
    CollapseKeepsWords(s);
    CollapseShape(s);
    CollapsedUnique(r, CollapseSpaces(s));
  }

  /** The first word of two strings equal up to case has the same length. */
  lemma {:induction false} WordPrefixCaseEq(x: string, y: string)
    requires CaseEq(x, y)
    ensures |WordPrefix(x)| == |WordPrefix(y)|
    decreases |x|
  {
    if |x| > 0 {
      SameFold(x[0], y[0]);
      if !IsSpace(x[0]) {
        WordPrefixCaseEq(x[1..], y[1..]);
      }
    }
  }

  /** Strings equal up to case have words equal up to case. */
  lemma {:induction false} WordsCaseEq(x: string, y: string)
    requires CaseEq(x, y)
    ensures |Words(x)| == |Words(y)|
    ensures forall k :: 0 <= k < |Words(x)| ==> CaseEq(Words(x)[k], Words(y)[k])
    decreases |x|
  {
    if |x| > 0 {
      SameFold(x[0], y[0]);
      if IsSpace(x[0]) {
        WordsCaseEq(x[1..], y[1..]);
      } else {
        WordPrefixCaseEq(x, y);
        var n := |WordPrefix(x)|;
        WordsCaseEq(x[n..], y[n..]);
        assert CaseEq(x[..n], y[..n]);
      }
    }
  }

  /** A string that is already collapsed is left unchanged. */
  lemma {:induction false} CollapseFixedPoint(s: string)
    requires NoDoubleSpace(s) && SpacesArePlain(s)
    ensures CollapseSpaces(s) == s
    decreases |s|
  {
    if |s| > 0 {
      CollapsedSuffix(s, 1);
      CollapseFixedPoint(s[1..]);
      assert s == [s[0]] + s[1..];
    }
  }

  /** CPython's `str.title()` loop: a character is lower-cased when the
      previous input character is cased and title-cased otherwise. */
  function TitleFrom(s: string, previousIsCased: bool): (r: string)
    ensures |r| == |s|
  {
    if |s| == 0 then ""
    else [if previousIsCased then Lower(s[0]) else Upper(s[0])] + TitleFrom(s[1..], IsCased(s[0]))
  }

  function Title(s: string): (r: string)
    ensures |r| == |s|
  {
    TitleFrom(s, false)
  }

  /** Each character of the loop's output depends only on the character
      itself and whether the one before it is cased. */
  lemma {:induction false} TitleFromPointwise(s: string, previousIsCased: bool)
    ensures forall i :: 0 <= i < |s| ==>
      TitleFrom(s, previousIsCased)[i]
        == if (if i == 0 then previousIsCased else IsCased(s[i - 1])) then Lower(s[i]) else Upper(s[i])
    decreases |s|
  {
    if |s| > 0 {
      TitleFromPointwise(s[1..], IsCased(s[0]));
    }
  }

  /** `str.title()` upper-cases a character exactly when it opens a run
      of cased characters and lower-cases every other one. */
  lemma TitlePointwise(s: string)
    ensures |Title(s)| == |s|
    ensures forall i :: 0 <= i < |s| ==>
      Title(s)[i] == if i > 0 && IsCased(s[i - 1]) then Lower(s[i]) else Upper(s[i])
  {
    TitleFromPointwise(s, false);
  }

  /** Already in `str.title()` form: every character is in the case the
      title rule gives it. */
  predicate Titled(s: string) {
    forall i :: 0 <= i < |s| ==> s[i] == if i > 0 && IsCased(s[i - 1]) then Lower(s[i]) else Upper(s[i])
  }

  /** Title-casing a string already in title form changes nothing. */
  lemma TitleFixed(s: string)
    requires Titled(s)
    ensures Title(s) == s
  {
    TitlePointwise(s);
    forall i | 0 <= i < |s|
      ensures Title(s)[i] == s[i]
    {
      assert s[i] == if i > 0 && IsCased(s[i - 1]) then Lower(s[i]) else Upper(s[i]);
    }
  }

  /** Title-casing changes letters only up to case. */
  lemma TitleCaseEq(s: string)
    ensures CaseEq(Title(s), s)
  {
    TitlePointwise(s);
    forall i | 0 <= i < |s|
      ensures Lower(Title(s)[i]) == Lower(s[i])
    {
      CaseMapping(s[i]);
      if i > 0 && IsCased(s[i - 1]) {
        assert Title(s)[i] == Lower(s[i]);
      } else {
        assert Title(s)[i] == Upper(s[i]);
      }
    }
  }

  /** Title-casing forgets the case the input had. */
  lemma TitleIgnoresCase(x: string, y: string)
    requires CaseEq(x, y)
    ensures Title(x) == Title(y)
  {
    TitlePointwise(x);
    TitlePointwise(y);
    forall i | 0 <= i < |x|
      ensures Title(x)[i] == Title(y)[i]
    {
      SameFold(x[i], y[i]);
      if i > 0 {
        SameFold(x[i - 1], y[i - 1]);
      }
    }
  }

  /** A string equal up to case to `s` has the same whitespace layout. */
  lemma CaseEqKeepsLayout(x: string, y: string)
    requires CaseEq(x, y)
    ensures forall i :: 0 <= i < |x| ==> IsSpace(x[i]) == IsSpace(y[i]) && IsWordChar(x[i]) == IsWordChar(y[i])
    ensures SpacesArePlain(y) ==> SpacesArePlain(x)
    ensures NoDoubleSpace(y) ==> NoDoubleSpace(x)
  {
    forall i | 0 <= i < |x|
      ensures IsSpace(x[i]) == IsSpace(y[i]) && IsWordChar(x[i]) == IsWordChar(y[i])
      ensures IsSpace(x[i]) ==> x[i] == y[i]
    {
      SameFold(x[i], y[i]);
    }
  }
}
