/** `standardize_availability`: a keyword classifier over the lower-cased
    availability text, with three possible outcomes. */
module Availability {
  import opened Wrappers
  import opened Text

  const UnknownStatus: string := "Unknown"
  const OutOfStock: string := "Out of Stock"
  const InStock: string := "In Stock"

  /** The phrases that mark a product as unavailable, in English and French. */
  const UnavailableTerms: seq<string> :=
    ["out of stock", [SmallEAcute] + "puis" + [SmallEAcute], "indisponible", "not available"]

  /** `t` occurs in `s` starting at position `i`. */
  predicate OccursAt(s: string, t: string, i: int) {
    0 <= i && i + |t| <= |s| && s[i..i + |t|] == t
  }

  /** Python's `t in s`: try each start position from the left. */
  predicate Contains(s: string, t: string)
    ensures |t| == 0 ==> Contains(s, t)
    ensures Contains(s, t) ==> |t| <= |s|
    decreases |s|
  {
    |t| <= |s| && (s[..|t|] == t || (|s| > 0 && Contains(s[1..], t)))
  }

  /** The scan finds `t` exactly when `t` occurs somewhere in `s`. */
  lemma {:induction false} ContainsIff(s: string, t: string)
    ensures Contains(s, t) <==> exists i :: OccursAt(s, t, i)
    decreases |s|
  {
    if |t| <= |s| {
      if s[..|t|] == t {
        assert OccursAt(s, t, 0);
      } else if |s| > 0 {
        ContainsIff(s[1..], t);
        if Contains(s[1..], t) {
          var i :| OccursAt(s[1..], t, i);
          assert s[i + 1..i + 1 + |t|] == s[1..][i..i + |t|];
          assert OccursAt(s, t, i + 1);
        }
        if exists i :: OccursAt(s, t, i) {
          var i :| OccursAt(s, t, i);
          assert s[1..][i - 1..i - 1 + |t|] == s[i..i + |t|];
          assert OccursAt(s[1..], t, i - 1);
        }
      }
    }
  }

  /** `any(term in text for term in terms)`. */
  predicate MentionsAny(text: string, terms: seq<string>) {
    exists n :: 0 <= n < |terms| && Contains(text, terms[n])
  }

  /** The lower-cased text mentions one of the unavailability phrases. */
  predicate SaysUnavailable(text: string) {
    MentionsAny(LowerStr(text), UnavailableTerms)
  }

  /** A missing availability is "Unknown"; otherwise the text is lower-cased
      and classified as "Out of Stock" when it mentions an unavailability
      phrase, and as "In Stock" in every other case. */
  function StandardizeAvailability(availability: Option<string>): (r: string)
    ensures r == UnknownStatus || r == OutOfStock || r == InStock
    ensures r == UnknownStatus <==> availability.None?
    ensures r == OutOfStock <==> (availability.Some? &&
      exists n, i :: 0 <= n < |UnavailableTerms| && OccursAt(LowerStr(availability.value), UnavailableTerms[n], i))
  {
    if availability.None? then UnknownStatus
    else
      var text := LowerStr(availability.value);
      SaysUnavailableIff(availability.value);
      if MentionsAny(text, UnavailableTerms) then OutOfStock else InStock
  }

  lemma SaysUnavailableIff(text: string)
    ensures SaysUnavailable(text) <==>
      exists n, i :: 0 <= n < |UnavailableTerms| && OccursAt(LowerStr(text), UnavailableTerms[n], i)
  {
    var l := LowerStr(text);
    forall n | 0 <= n < |UnavailableTerms|
      ensures Contains(l, UnavailableTerms[n]) <==> exists i :: OccursAt(l, UnavailableTerms[n], i)
    {
      ContainsIff(l, UnavailableTerms[n]);
    }
  }

  /** Letter case in the input does not matter. */
  lemma AvailabilityIgnoresCase(x: string, y: string)
    requires CaseEq(x, y)
    ensures StandardizeAvailability(Some(x)) == StandardizeAvailability(Some(y))
  {
    assert LowerStr(x) == LowerStr(y);
  }

  /** A text in which the first character of `t` never occurs does not
      contain `t`. */
  lemma AbsentInitial(s: string, t: string)
    requires |t| > 0 && forall i :: 0 <= i < |s| ==> s[i] != t[0]
    ensures !Contains(s, t)
  {
    ContainsIff(s, t);
  }

  /** A text of at most 11 characters without the letter é says nothing
      about being unavailable: every phrase but "épuisé" is longer. */
  lemma ShortTextWithoutEAcute(s: string)
    requires |s| <= 11 && forall i :: 0 <= i < |s| ==> s[i] != SmallEAcute
    ensures !MentionsAny(s, UnavailableTerms)
  {
    AbsentInitial(s, UnavailableTerms[1]);
  }

  /** A text without É or é, read in lower case, has no é. */
  lemma NoEAcuteAfterLower(s: string)
    requires forall i :: 0 <= i < |s| ==> s[i] != SmallEAcute && s[i] != CapitalEAcute
    ensures forall i :: 0 <= i < |LowerStr(s)| ==> LowerStr(s)[i] != SmallEAcute
  {
  }

  lemma ShortWithoutEAcuteIsInStock(s: string)
    requires |s| <= 11
    requires forall i :: 0 <= i < |s| ==> s[i] != SmallEAcute && s[i] != CapitalEAcute
    ensures StandardizeAvailability(Some(s)) == InStock
  {
    NoEAcuteAfterLower(s);
    ShortTextWithoutEAcute(LowerStr(s));
  }

  /** "In Stock" is a fixed point. */
  lemma InStockFixed()
    ensures StandardizeAvailability(Some(InStock)) == InStock
  {
    ShortWithoutEAcuteIsInStock(InStock);
  }

  /** "Unknown" is not a fixed point: read back, it becomes "In Stock". */
  lemma UnknownBecomesInStock()
    ensures StandardizeAvailability(Some(UnknownStatus)) == InStock
  {
    ShortWithoutEAcuteIsInStock(UnknownStatus);
  }

  /** "Disponible" (French for available) is "In Stock". */
  lemma DisponibleIsInStock()
    ensures StandardizeAvailability(Some("Disponible")) == InStock
  {
    ShortWithoutEAcuteIsInStock("Disponible");
  }

  /** A text whose lower case starts with a phrase is "Out of Stock". */
  lemma StartsWithTerm(s: string, n: int)
    requires 0 <= n < |UnavailableTerms|
    requires |UnavailableTerms[n]| <= |s| && LowerStr(s)[..|UnavailableTerms[n]|] == UnavailableTerms[n]
    ensures StandardizeAvailability(Some(s)) == OutOfStock
  {
    assert OccursAt(LowerStr(s), UnavailableTerms[n], 0);
  }

  /** "Out of Stock" is a fixed point. */
  lemma OutOfStockFixed()
    ensures StandardizeAvailability(Some(OutOfStock)) == OutOfStock
  {
    assert LowerStr(OutOfStock) == UnavailableTerms[0];
    StartsWithTerm(OutOfStock, 0);
  }

  /** "Épuisé - rupture de stock" is "Out of Stock": lower-casing turns its
      capital É into the é of "épuisé". */
  lemma EpuiseIsOutOfStock()
    ensures StandardizeAvailability(Some([CapitalEAcute] + "puis" + [SmallEAcute] + " - rupture de stock")) == OutOfStock
  {
    var s := [CapitalEAcute] + "puis" + [SmallEAcute] + " - rupture de stock";
    assert LowerStr(s)[..6] == UnavailableTerms[1];
    StartsWithTerm(s, 1);
  }
}
