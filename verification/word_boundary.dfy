/** `re.sub(r'\b' + pattern + r'\b', replacement, s, flags=re.IGNORECASE)`
    for a pattern made of word characters, written out without a regex
    engine: `\b` is the position between a word and a non-word character
    (or the string's edge), and IGNORECASE compares characters up to case. */
module WordBoundary {
  import opened Text

  /** The regex assertion `\b` at position `p` of `s`. */
  predicate Boundary(s: string, p: int)
    requires 0 <= p <= |s|
  {
    (p > 0 && IsWordChar(s[p - 1])) != (p < |s| && IsWordChar(s[p]))
  }

  predicate AllWordChars(s: string) {
    forall t :: 0 <= t < |s| ==> IsWordChar(s[t])
  }

  /** `\b<pat>\b` with IGNORECASE matches `s` at position `k`. */
  predicate WholeWordAt(s: string, k: int, pat: string) {
    0 <= k && k + |pat| <= |s| && Boundary(s, k) && Boundary(s, k + |pat|) && CaseEq(s[k..k + |pat|], pat)
  }

  /** Position `j` lies inside a whole-word match of `pat` that starts at `k`. */
  predicate CoveredAt(s: string, pat: string, k: int, j: int) {
    k <= j < k + |pat| && WholeWordAt(s, k, pat)
  }

  /** The scan `re.sub` performs from position `i`: at each position try
      the pattern; on a match emit the replacement and resume after it,
      otherwise copy one character. The `\b` tests look at the original
      string, also across the point where the scan resumes. */
  function SubFrom(s: string, pat: string, rep: string, i: int): (r: string)
    requires 0 <= i <= |s| && |pat| > 0
    ensures |rep| == |pat| ==> |r| == |s| - i
    decreases |s| - i
  {
    if i == |s| then ""
    else if WholeWordAt(s, i, pat) then rep + SubFrom(s, pat, rep, i + |pat|)
    else [s[i]] + SubFrom(s, pat, rep, i + 1)
  }

  function SubWholeWord(s: string, pat: string, rep: string): (r: string)
    requires |pat| > 0
    ensures |rep| == |pat| ==> |r| == |s|
  {
    SubFrom(s, pat, rep, 0)
  }

  /** Two whole-word matches of a word-character pattern never overlap. */
  lemma NoOverlap(s: string, pat: string, k1: int, k2: int)
    requires |pat| > 0 && AllWordChars(pat)
    requires WholeWordAt(s, k1, pat) && WholeWordAt(s, k2, pat) && k1 < k2
    ensures k1 + |pat| <= k2
  {
    if k2 < k1 + |pat| {
      assert s[k1..k1 + |pat|][k2 - 1 - k1] == s[k2 - 1];
      SameFold(s[k2 - 1], pat[k2 - 1 - k1]);
      assert s[k2..k2 + |pat|][0] == s[k2];
      SameFold(s[k2], pat[0]);
      assert false;
    }
  }

  /** Whether `\b<pat>\b` matches depends on word classes and letters up
      to case only. */
  lemma WholeWordIgnoresCase(s: string, s': string, k: int, pat: string, pat': string)
    requires CaseEq(s, s') && CaseEq(pat, pat')
    ensures WholeWordAt(s, k, pat) == WholeWordAt(s', k, pat')
  {
    CaseEqKeepsLayout(s, s');
    if 0 <= k && k + |pat| <= |s| {
      assert CaseEq(s[k..k + |pat|], s'[k..k + |pat|]);
      if CaseEq(s[k..k + |pat|], pat) {
        CaseEqTransitive(s'[k..k + |pat|], s[k..k + |pat|], pat);
        CaseEqTransitive(s'[k..k + |pat|], pat, pat');
      }
      if CaseEq(s'[k..k + |pat|], pat') {
        CaseEqTransitive(s[k..k + |pat|], s'[k..k + |pat|], pat');
        CaseEqTransitive(s[k..k + |pat|], pat', pat);
      }
    }
  }

  /** Position `j` lies inside a whole-word match of `pat` that starts at
      or after `i`. */
  predicate CoveredFrom(s: string, pat: string, i: int, j: int) {
    exists k :: i <= k <= j && CoveredAt(s, pat, k, j)
  }

  /** Past a match at `i`, no match starting inside it covers anything. */
  lemma CoveredAfterMatch(s: string, pat: string, i: int, j: int)
    requires |pat| > 0 && AllWordChars(pat) && WholeWordAt(s, i, pat) && i + |pat| <= j
    ensures CoveredFrom(s, pat, i, j) == CoveredFrom(s, pat, i + |pat|, j)
  {
    forall k | i <= k < i + |pat| && CoveredAt(s, pat, k, j)
      ensures false
    {
      if k > i {
        NoOverlap(s, pat, i, k);
      }
    }
  }

  /** Where nothing matches at `i`, the coverage of later positions is
      decided by the matches after `i`, and `i` itself is not covered. */
  lemma CoveredAfterMiss(s: string, pat: string, i: int, j: int)
    requires !WholeWordAt(s, i, pat) && i <= j
    ensures i < j ==> CoveredFrom(s, pat, i, j) == CoveredFrom(s, pat, i + 1, j)
    ensures i == j ==> !CoveredFrom(s, pat, i, j)
  {
  }

  /** `out` is what the scan from `i` should produce: the characters of
      `s[i..]`, upper-cased inside whole-word matches starting at or after
      `i` and copied elsewhere. */
  predicate ScanAgrees(s: string, pat: string, i: int, out: string) {
    0 <= i <= |s| && |out| == |s| - i &&
    forall j :: i <= j < |s| ==> out[j - i] == if CoveredFrom(s, pat, i, j) then Upper(s[j]) else s[j]
  }

  lemma MatchStep(s: string, pat: string, rep: string, i: int, rest: string)
    requires |pat| > 0 && AllWordChars(pat) && WholeWordAt(s, i, pat)
    requires |rep| == |pat| && forall t :: 0 <= t < |pat| ==> rep[t] == Upper(pat[t])
    requires ScanAgrees(s, pat, i + |pat|, rest)
    ensures ScanAgrees(s, pat, i, rep + rest)
  {
    var n := i + |pat|;
    var r := rep + rest;
    forall j | i <= j < |s|
      ensures r[j - i] == if CoveredFrom(s, pat, i, j) then Upper(s[j]) else s[j]
    {
      if j < n {
        assert CoveredAt(s, pat, i, j);
        assert s[i..n][j - i] == s[j];
        SameFold(s[j], pat[j - i]);
      } else {
        assert r[j - i] == rest[j - n];
        CoveredAfterMatch(s, pat, i, j);
      }
    }
  }

  lemma MissStep(s: string, pat: string, i: int, rest: string)
    requires 0 <= i < |s| && !WholeWordAt(s, i, pat)
    requires ScanAgrees(s, pat, i + 1, rest)
    ensures ScanAgrees(s, pat, i, [s[i]] + rest)
  {
    var r := [s[i]] + rest;
    forall j | i <= j < |s|
      ensures r[j - i] == if CoveredFrom(s, pat, i, j) then Upper(s[j]) else s[j]
    {
      CoveredAfterMiss(s, pat, i, j);
      if j > i {
        assert r[j - i] == rest[j - (i + 1)];
      }
    }
  }

  /** The scan upper-cases exactly the characters inside whole-word
      matches that start at or after `i`, when the replacement is the
      pattern in upper case, and copies every other character. */
  lemma {:induction false} SubFromPointwise(s: string, pat: string, rep: string, i: int)
    requires 0 <= i <= |s| && |pat| > 0 && AllWordChars(pat)
    requires |rep| == |pat| && forall t :: 0 <= t < |pat| ==> rep[t] == Upper(pat[t])
    ensures ScanAgrees(s, pat, i, SubFrom(s, pat, rep, i))
    decreases |s| - i
  {
    if i < |s| {
      if WholeWordAt(s, i, pat) {
        SubFromPointwise(s, pat, rep, i + |pat|);
        MatchStep(s, pat, rep, i, SubFrom(s, pat, rep, i + |pat|));
      } else {
        SubFromPointwise(s, pat, rep, i + 1);
        MissStep(s, pat, i, SubFrom(s, pat, rep, i + 1));
      }
    }
  }

  /** `re.sub(r'\b' + pat + r'\b', rep, s, flags=re.IGNORECASE)` with `rep`
      the upper case of `pat`: the result upper-cases exactly the
      characters inside whole-word matches and leaves the rest as they were. */
  lemma SubWholeWordPointwise(s: string, pat: string, rep: string)
    requires |pat| > 0 && AllWordChars(pat)
    requires |rep| == |pat| && forall t :: 0 <= t < |pat| ==> rep[t] == Upper(pat[t])
    ensures |SubWholeWord(s, pat, rep)| == |s|
    ensures forall j :: 0 <= j < |s| ==>
      SubWholeWord(s, pat, rep)[j] == if CoveredFrom(s, pat, 0, j) then Upper(s[j]) else s[j]
  {
    SubFromPointwise(s, pat, rep, 0);
  }
}
