/** `standardize_name`: the sentinel for missing names, whitespace
    collapse, `str.title()` casing and the acronym re-uppercasing loop. */
module NameCleaning {
  import opened Wrappers
  import opened Text
  import opened WordBoundary

  const UnknownName: string := "Unknown Laptop"
  const Placeholder: string := "N/A"

  /** The acronyms re-uppercased after title-casing, in loop order. */
  const Acronyms: seq<string> := ["SSD", "HDD", "RAM", "GB", "TB", "CPU", "GPU", "HD", "4K", "FHD"]

  /** A non-empty run of word characters, already in upper case. */
  predicate IsAcronym(a: string) {
    |a| > 0 && AllWordChars(a) && forall t :: 0 <= t < |a| ==> Upper(a[t]) == a[t]
  }

  lemma AcronymsWellFormed()
    ensures forall n :: 0 <= n < |Acronyms| ==> IsAcronym(Acronyms[n])
  {
  }

  /** The acronym loop: for each `a`, in order,
      `re.sub(r'\b' + a.title() + r'\b', a, s, flags=re.IGNORECASE)`. */
  function RestoreAcronyms(s: string, acronyms: seq<string>): (r: string)
    requires forall n :: 0 <= n < |acronyms| ==> IsAcronym(acronyms[n])
    ensures |r| == |s|
    decreases |acronyms|
  {
    if |acronyms| == 0 then s
    else
      var a := acronyms[0];
      assert IsAcronym(a);
      RestoreAcronyms(SubWholeWord(s, Title(a), a), acronyms[1..])
  }

  /** The loop over the fixed acronym list of `standardize_name`. */
  function RestoreListed(s: string): (r: string)
    ensures |r| == |s|
  {
    AcronymsWellFormed();
    RestoreAcronyms(s, Acronyms)
  }

  /** Position `j` of `s` lies in a whole word equal, up to case, to one of
      the acronyms. */
  predicate InAcronymWord(s: string, acronyms: seq<string>, j: int) {
    exists n :: 0 <= n < |acronyms| && CoveredFrom(s, acronyms[n], 0, j)
  }

  lemma InAcronymWordCons(s: string, acronyms: seq<string>, j: int)
    requires |acronyms| > 0
    ensures InAcronymWord(s, acronyms, j)
      == (CoveredFrom(s, acronyms[0], 0, j) || InAcronymWord(s, acronyms[1..], j))
  {
    if InAcronymWord(s, acronyms[1..], j) {
      var n :| 0 <= n < |acronyms| - 1 && CoveredFrom(s, acronyms[1..][n], 0, j);
      assert CoveredFrom(s, acronyms[n + 1], 0, j);
    }
    if InAcronymWord(s, acronyms, j) && !CoveredFrom(s, acronyms[0], 0, j) {
      var n :| 0 <= n < |acronyms| && CoveredFrom(s, acronyms[n], 0, j);
      assert acronyms[1..][n - 1] == acronyms[n];
    }
  }

  /** Coverage by whole-word matches ignores case on both sides. */
  lemma CoveredIgnoresCase(s: string, s': string, pat: string, pat': string, i: int, j: int)
    requires CaseEq(s, s') && CaseEq(pat, pat')
    ensures CoveredFrom(s, pat, i, j) == CoveredFrom(s', pat', i, j)
  {
    forall k
      ensures CoveredAt(s, pat, k, j) == CoveredAt(s', pat', k, j)
    {
      WholeWordIgnoresCase(s, s', k, pat, pat');
    }
  }

  lemma InAcronymWordIgnoresCase(s: string, s': string, acronyms: seq<string>, j: int)
    requires CaseEq(s, s')
    ensures InAcronymWord(s, acronyms, j) == InAcronymWord(s', acronyms, j)
  {
    forall n | 0 <= n < |acronyms|
      ensures CoveredFrom(s, acronyms[n], 0, j) == CoveredFrom(s', acronyms[n], 0, j)
    {
      CoveredIgnoresCase(s, s', acronyms[n], acronyms[n], 0, j);
    }
  }

  /** One step of the loop: matching the title-cased acronym ignoring case
      is matching the acronym itself, and the replacement upper-cases
      exactly the matched characters. */
  lemma RestoreStep(s: string, a: string)
    requires IsAcronym(a)
    ensures |Title(a)| > 0
    ensures var s1 := SubWholeWord(s, Title(a), a);
      |s1| == |s| && forall j :: 0 <= j < |s| ==> s1[j] == if CoveredFrom(s, a, 0, j) then Upper(s[j]) else s[j]
  {
    var p := Title(a);
    TitleCaseEq(a);
    CaseEqKeepsLayout(p, a);
    forall t | 0 <= t < |p|
      ensures a[t] == Upper(p[t])
    {
      SameFold(p[t], a[t]);
    }
    SubWholeWordPointwise(s, p, a);
    forall j | 0 <= j < |s|
      ensures CoveredFrom(s, p, 0, j) == CoveredFrom(s, a, 0, j)
    {
      CoveredIgnoresCase(s, s, p, a, 0, j);
    }
  }

  /** The whole loop upper-cases exactly the characters that lie in a whole
      word equal, up to case, to some acronym, and leaves every other
      character as it was; so the order of the list does not matter. */
  lemma {:induction false} RestorePointwise(s: string, acronyms: seq<string>)
    requires forall n :: 0 <= n < |acronyms| ==> IsAcronym(acronyms[n])
    ensures |RestoreAcronyms(s, acronyms)| == |s|
    ensures forall j :: 0 <= j < |s| ==>
      RestoreAcronyms(s, acronyms)[j] == if InAcronymWord(s, acronyms, j) then Upper(s[j]) else s[j]
    decreases |acronyms|
  {
    if |acronyms| > 0 {
      var a := acronyms[0];
      RestoreStep(s, a);
      var s1 := SubWholeWord(s, Title(a), a);
      assert CaseEq(s1, s) by {
        forall j | 0 <= j < |s|
          ensures Lower(s1[j]) == Lower(s[j])
        {
          CaseMapping(s[j]);
        }
      }
      RestorePointwise(s1, acronyms[1..]);
      forall j | 0 <= j < |s|
        ensures RestoreAcronyms(s, acronyms)[j] == if InAcronymWord(s, acronyms, j) then Upper(s[j]) else s[j]
      {
        InAcronymWordCons(s, acronyms, j);
        InAcronymWordIgnoresCase(s1, s, acronyms[1..], j);
        SameFold(s1[j], s[j]);
        CaseMapping(s[j]);
      }
    }
  }

  /** The loop changes letters only up to case. */
  lemma RestoreCaseEq(s: string)
    ensures CaseEq(RestoreListed(s), s)
  {
    AcronymsWellFormed();
    RestorePointwise(s, Acronyms);
    forall j | 0 <= j < |s|
      ensures Lower(RestoreListed(s)[j]) == Lower(s[j])
    {
      CaseMapping(s[j]);
    }
  }

  /** `standardize_name`. A missing name or the placeholder "N/A" becomes
      "Unknown Laptop"; any other name comes back with its whitespace runs
      collapsed to single spaces and its non-whitespace characters kept in
      order up to case, starting and ending as the input did. */
  function StandardizeName(name: Option<string>): (r: string)
    ensures name.None? || name.value == Placeholder ==> r == UnknownName
    ensures name.Some? && name.value != Placeholder ==>
      && NoDoubleSpace(r)
      && SpacesArePlain(r)
      && CaseEq(NonSpace(r), NonSpace(name.value))
      && (|r| == 0 <==> |name.value| == 0)
      && (|r| > 0 ==> IsSpace(r[0]) == IsSpace(name.value[0]))
      && (|r| > 0 ==> IsSpace(r[|r| - 1]) == IsSpace(name.value[|name.value| - 1]))
      && |Words(r)| == |Words(name.value)|
      && (forall k :: 0 <= k < |Words(r)| ==> CaseEq(Words(r)[k], Words(name.value)[k]))
  {
    if name.None? || name.value == Placeholder then UnknownName
    else
      var c := CollapseSpaces(name.value);
      StandardizedCaseEq(name.value);
      CaseEqKeepsLayout(RestoreListed(Title(c)), c);
      NonSpaceCaseEq(RestoreListed(Title(c)), c);
      CollapseKeepsText(name.value);
      CollapseKeepsWords(name.value);
      CollapseShape(name.value);
      WordsCaseEq(RestoreListed(Title(c)), c);
      RestoreListed(Title(c))
  }

  /** Outside the sentinel case the result is the collapsed input up to case. */
  lemma StandardizedCaseEq(name: string)
    ensures CaseEq(RestoreListed(Title(CollapseSpaces(name))), CollapseSpaces(name))
  {
    var c := CollapseSpaces(name);
    RestoreCaseEq(Title(c));
    TitleCaseEq(c);
    CaseEqTransitive(RestoreListed(Title(c)), Title(c), c);
  }

  /** The casing rule of `standardize_name`: a character of the collapsed
      name is upper-cased when it lies in a whole word equal, up to case, to
      an acronym; otherwise it follows `str.title()`, lower case after a cased
      character and upper case elsewhere. */
  lemma NameCasing(name: string)
    requires name != Placeholder
    ensures var c := CollapseSpaces(name);
      var r := StandardizeName(Some(name));
      |r| == |c| &&
      forall j :: 0 <= j < |c| ==>
        r[j] == if InAcronymWord(c, Acronyms, j) then Upper(c[j])
                else if j > 0 && IsCased(c[j - 1]) then Lower(c[j])
                else Upper(c[j])
  {
    var c := CollapseSpaces(name);
    var t := Title(c);
    AcronymsWellFormed();
    RestorePointwise(t, Acronyms);
    TitlePointwise(c);
    TitleCaseEq(c);
    forall j | 0 <= j < |c|
      ensures InAcronymWord(t, Acronyms, j) == InAcronymWord(c, Acronyms, j)
      ensures Upper(t[j]) == Upper(c[j])
    {
      InAcronymWordIgnoresCase(t, c, Acronyms, j);
      SameFold(t[j], c[j]);
    }
  }

  /** Inside a single word, a whole-word match can only be the whole word. */
  lemma WholeWordInWord(w: string, k: int, p: string)
    requires AllWordChars(w) && |p| > 0 && WholeWordAt(w, k, p)
    ensures k == 0 && |p| == |w| && CaseEq(w, p)
  {
    assert w[k..k + |p|] == w;
  }

  /** `w` equals, up to case, one of the acronyms. */
  predicate MatchesSome(w: string, acronyms: seq<string>) {
    exists n :: 0 <= n < |acronyms| && CaseEq(w, acronyms[n])
  }

  lemma MatchesSomeIgnoresCase(x: string, y: string, acronyms: seq<string>)
    requires CaseEq(x, y)
    ensures MatchesSome(x, acronyms) == MatchesSome(y, acronyms)
  {
    if MatchesSome(x, acronyms) {
      var n :| 0 <= n < |acronyms| && CaseEq(x, acronyms[n]);
      CaseEqTransitive(y, x, acronyms[n]);
    }
    if MatchesSome(y, acronyms) {
      var n :| 0 <= n < |acronyms| && CaseEq(y, acronyms[n]);
      CaseEqTransitive(x, y, acronyms[n]);
    }
  }

  /** On a single word the loop upper-cases the whole word when it is an
      acronym up to case, and otherwise leaves it alone. */
  lemma SingleWordRestore(w: string, acronyms: seq<string>)
    requires |w| > 0 && AllWordChars(w)
    requires forall n :: 0 <= n < |acronyms| ==> IsAcronym(acronyms[n])
    ensures RestoreAcronyms(w, acronyms) == if MatchesSome(w, acronyms) then UpperStr(w) else w
  {
    RestorePointwise(w, acronyms);
    forall j | 0 <= j < |w|
      ensures InAcronymWord(w, acronyms, j) == MatchesSome(w, acronyms)
    {
      if MatchesSome(w, acronyms) {
        var n :| 0 <= n < |acronyms| && CaseEq(w, acronyms[n]);
        assert w[0..|w|] == w;
        assert CoveredAt(w, acronyms[n], 0, j);
      }
      if InAcronymWord(w, acronyms, j) {
        var n :| 0 <= n < |acronyms| && CoveredFrom(w, acronyms[n], 0, j);
        var k :| 0 <= k <= j && CoveredAt(w, acronyms[n], k, j);
        WholeWordInWord(w, k, acronyms[n]);
      }
    }
  }

  lemma UpperIgnoresCase(x: string, y: string)
    requires CaseEq(x, y)
    ensures UpperStr(x) == UpperStr(y)
  {
    forall j | 0 <= j < |x|
      ensures Upper(x[j]) == Upper(y[j])
    {
      SameFold(x[j], y[j]);
    }
  }

  /** A single word is not the placeholder and has no whitespace to collapse. */
  lemma OneWord(w: string)
    requires |w| > 0 && AllWordChars(w)
    ensures w != Placeholder && CollapseSpaces(w) == w
  {
    forall j | 0 <= j < |w|
      ensures !IsSpace(w[j])
    {
      assert IsWordChar(w[j]);
    }
    if |w| == 3 {
      assert IsWordChar(w[1]) && !IsWordChar(Placeholder[1]);
    }
    CollapseFixedPoint(w);
  }

  /** A one-word name becomes its acronym in upper case when it is one, up
      to case, and its title form otherwise. */
  lemma SingleWordName(w: string)
    requires |w| > 0 && AllWordChars(w)
    ensures StandardizeName(Some(w)) == if MatchesSome(w, Acronyms) then UpperStr(w) else Title(w)
  {
    OneWord(w);
    var t := Title(w);
    TitleCaseEq(w);
    CaseEqKeepsLayout(t, w);
    AcronymsWellFormed();
    SingleWordRestore(t, Acronyms);
    MatchesSomeIgnoresCase(t, w, Acronyms);
    UpperIgnoresCase(t, w);
  }

  lemma SsdIsAcronym(w: string)
    requires |w| == 3 && w[0] == 's' && w[1] == 'S' && w[2] == 'd'
    ensures MatchesSome(w, Acronyms)
  {
    assert CaseEq(w, Acronyms[0]);
  }

  /** "sSd" comes back as "SSD". */
  lemma SsdExample(w: string)
    requires |w| == 3 && w[0] == 's' && w[1] == 'S' && w[2] == 'd'
    ensures StandardizeName(Some(w)) == "SSD"
  {
    SsdIsAcronym(w);
    SingleWordName(w);
  }

  lemma SsdLiteral()
    ensures StandardizeName(Some("sSd")) == "SSD"
  {
    SsdExample("sSd");
  }

  lemma SixteenGbTitled(w: string, r: string)
    requires |w| == 4 && w[0] == '1' && w[1] == '6' && w[2] == 'g' && w[3] == 'b'
    requires r == if MatchesSome(w, Acronyms) then UpperStr(w) else Title(w)
    ensures r == "16Gb"
  {
    assert forall n :: 0 <= n < |Acronyms| ==> |Acronyms[n]| <= 3;
    TitlePointwise(w);
  }

  /** "16gb" comes back as "16Gb": the digits and the unit form one word, so
      `\bGb\b` never matches inside it. */
  lemma SixteenGbExample(w: string)
    requires |w| == 4 && w[0] == '1' && w[1] == '6' && w[2] == 'g' && w[3] == 'b'
    ensures StandardizeName(Some(w)) == "16Gb"
  {
    SingleWordName(w);
    SixteenGbTitled(w, StandardizeName(Some(w)));
  }

  lemma SixteenGbLiteral()
    ensures StandardizeName(Some("16gb")) == "16Gb"
  {
    SixteenGbExample("16gb");
  }

  /** Lower-case initials of the acronyms. */
  const AcronymInitials: set<char> := {'s', 'h', 'r', 'g', 't', 'c', '4', 'f'}

  lemma InitialsOfAcronyms()
    ensures forall n :: 0 <= n < |Acronyms| ==> Lower(Acronyms[n][0]) in AcronymInitials
  {
  }

  /** No word of `s` starts with an acronym's initial, up to case. */
  predicate WordsAvoidInitials(s: string) {
    forall k :: 0 <= k < |s| && (k == 0 || !IsWordChar(s[k - 1])) ==> Lower(s[k]) !in AcronymInitials
  }

  /** A whole-word match starts a word, with the pattern's initial. */
  lemma MatchAtWordStart(s: string, a: string, k: int)
    requires |a| > 0 && AllWordChars(a) && WholeWordAt(s, k, a)
    ensures k == 0 || !IsWordChar(s[k - 1])
    ensures Lower(s[k]) == Lower(a[0])
  {
    assert s[k..k + |a|][0] == s[k];
    SameFold(s[k], a[0]);
  }

  /** The loop leaves alone a string none of whose words could be an acronym. */
  lemma RestoreWithoutInitials(s: string)
    requires WordsAvoidInitials(s)
    ensures RestoreListed(s) == s
  {
    InitialsOfAcronyms();
    AcronymsWellFormed();
    RestorePointwise(s, Acronyms);
    forall n, k | 0 <= n < |Acronyms| && WholeWordAt(s, k, Acronyms[n])
      ensures false
    {
      assert IsAcronym(Acronyms[n]);
      MatchAtWordStart(s, Acronyms[n], k);
    }
  }

  /** The letters of "Unknown Laptop", one by one. */
  predicate SpellsUnknownName(u: string) {
    |u| == 14 && u[0] == 'U' && u[1] == 'n' && u[2] == 'k' && u[3] == 'n' && u[4] == 'o' && u[5] == 'w' && u[6] == 'n'
    && u[7] == ' ' && u[8] == 'L' && u[9] == 'a' && u[10] == 'p' && u[11] == 't' && u[12] == 'o' && u[13] == 'p'
  }

  lemma UnknownNameSpelled()
    ensures SpellsUnknownName(UnknownName)
  {
  }

  lemma SpelledCollapsed(u: string)
    requires SpellsUnknownName(u)
    ensures CollapseSpaces(u) == u
  {
    assert NoDoubleSpace(u) by {
      forall i | 0 <= i < |u| - 1
        ensures !(IsSpace(u[i]) && IsSpace(u[i + 1]))
      {
        if i != 7 && i != 6 {
          assert !IsSpace(u[i]);
        }
      }
    }
    assert SpacesArePlain(u) by {
      forall i | 0 <= i < |u| && IsSpace(u[i])
        ensures u[i] == ' '
      {
        assert i == 7;
      }
    }
    CollapseFixedPoint(u);
  }

  lemma SpelledTitled(u: string)
    requires SpellsUnknownName(u)
    ensures Titled(u)
  {
    forall i | 0 <= i < |u|
      ensures u[i] == if i > 0 && IsCased(u[i - 1]) then Lower(u[i]) else Upper(u[i])
    {
      if i == 0 || i == 8 {
      } else if i == 7 {
      } else {
        assert IsLowerLetter(u[i]) && IsCased(u[i - 1]);
      }
    }
  }

  lemma SpelledAvoidsInitials(u: string)
    requires SpellsUnknownName(u)
    ensures WordsAvoidInitials(u)
  {
    forall k | 0 <= k < |u| && (k == 0 || !IsWordChar(u[k - 1]))
      ensures Lower(u[k]) !in AcronymInitials
    {
      if k != 0 && k != 8 {
        assert IsWordChar(u[k - 1]);
      }
    }
  }

  /** The sentinel is a fixed point: standardising "Unknown Laptop" gives
      "Unknown Laptop" back. */
  lemma UnknownNameFixed()
    ensures StandardizeName(Some(UnknownName)) == UnknownName
  {
    var u := UnknownName;
    UnknownNameSpelled();
    SpelledCollapsed(u);
    SpelledTitled(u);
    TitleFixed(u);
    SpelledAvoidsInitials(u);
    RestoreWithoutInitials(u);
  }

  /** Standardising twice is standardising once, except when the first pass
      produced the placeholder itself (from "n/a", say), which the second
      pass turns into the sentinel. */
  lemma StandardizeNameIdempotent(name: Option<string>)
    requires StandardizeName(name) != Placeholder
    ensures StandardizeName(Some(StandardizeName(name))) == StandardizeName(name)
  {
    if name.None? || name.value == Placeholder {
      UnknownNameFixed();
    } else {
      var c := CollapseSpaces(name.value);
      var r := StandardizeName(name);
      CollapseFixedPoint(r);
      StandardizedCaseEq(name.value);
      TitleIgnoresCase(r, c);
    }
  }

  lemma LowerPlaceholderTitled(w: string)
    requires |w| == 3 && w[0] == 'n' && w[1] == '/' && w[2] == 'a'
    ensures CollapseSpaces(w) == w && Title(w) == Placeholder
  {
    CollapseFixedPoint(w);
    TitlePointwise(w);
  }

  lemma PlaceholderKept(s: string)
    requires s == Placeholder
    ensures RestoreListed(s) == s
  {
    assert |s| == 3 && s[0] == 'N' && s[1] == '/' && s[2] == 'A';
    assert IsWordChar(s[0]) && Lower(s[0]) == 'n' && Lower(s[2]) == 'a';
    assert WordsAvoidInitials(s) by {
      forall k | 0 <= k < |s| && (k == 0 || !IsWordChar(s[k - 1]))
        ensures Lower(s[k]) !in AcronymInitials
      {
        assert k == 0 || k == 2;
      }
    }
    RestoreWithoutInitials(s);
  }

  /** "n/a" is not the placeholder, but standardises to it. */
  lemma LowerPlaceholderBecomesPlaceholder(w: string)
    requires |w| == 3 && w[0] == 'n' && w[1] == '/' && w[2] == 'a'
    ensures w != Placeholder && StandardizeName(Some(w)) == Placeholder
  {
    LowerPlaceholderTitled(w);
    PlaceholderKept(Title(w));
  }

  lemma LowerPlaceholderLiteral()
    ensures StandardizeName(Some("n/a")) == "N/A"
  {
    LowerPlaceholderBecomesPlaceholder("n/a");
  }
}
