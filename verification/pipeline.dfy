/** The decisions `main()` takes around the cleaning: which sites to
    scrape, which scraped tables to keep, and which cleaned rows survive the
    price and rating filters. Scraping itself is a parameter: a function from
    a site to the table it produced or to the exception it raised. */
module Pipeline {
  import opened Wrappers
  import opened Sequences
  import opened DataCleaning

  datatype Site = Amazon | Cdiscount | Boulanger

  /** One value of `--sites`: a site's key, or `all`. */
  datatype SiteArg = All | Named(site: Site)

  /** The order in which `main()` tests the sites. */
  const SiteOrder: seq<Site> := [Amazon, Cdiscount, Boulanger]

  /** A site's position in `SiteOrder`. */
  function Rank(s: Site): (r: nat)
    ensures r < |SiteOrder| && SiteOrder[r] == s
  {
    if SiteOrder[0] == s then 0
    else if SiteOrder[1] == s then 1
    else assert s.Boulanger?; 2
  }

  /** The default of `--sites`. */
  const DefaultSiteArgs: seq<SiteArg> := [All]

  /** `'all' in args.sites or '<key>' in args.sites`. */
  predicate Wanted(args: seq<SiteArg>, s: Site) {
    All in args || Named(s) in args
  }

  /** The three `if` blocks that build `sites_to_scrape`: a site is selected
      exactly when `all` or its own key was given, and the sites come in the
      fixed order Amazon, Cdiscount, Boulanger, each at most once. */
  function SelectSites(args: seq<SiteArg>): (r: seq<Site>)
    ensures forall i, j :: 0 <= i < j < |r| ==> Rank(r[i]) < Rank(r[j])
  {
    (if Wanted(args, Amazon) then [Amazon] else [])
    + (if Wanted(args, Cdiscount) then [Cdiscount] else [])
    + (if Wanted(args, Boulanger) then [Boulanger] else [])
  }

  /** A site is selected exactly when `all` or its own key was given. */
  lemma SelectedIff(args: seq<SiteArg>, s: Site)
    ensures s in SelectSites(args) <==> All in args || Named(s) in args
  {
    match s
    case Amazon =>
    case Cdiscount =>
    case Boulanger =>
  }

  /** No site is scraped twice, however often it is named. */
  lemma SelectedSitesDistinct(args: seq<SiteArg>)
    ensures forall i, j :: 0 <= i < j < |SelectSites(args)| ==> SelectSites(args)[i] != SelectSites(args)[j]
  {
  }

  /** The selection is the fixed site order with some sites left out. */
  lemma SelectedSitesInOrder(args: seq<SiteArg>)
    ensures SubsequenceOf(SelectSites(args), SiteOrder)
  {
    var r := SelectSites(args);
    var b := SiteOrder;
    assert b[1..] == [Cdiscount, Boulanger] && b[2..] == [Boulanger] && b[3..] == [];
    SubsequenceOfSelf(r);
    if |r| > 0 {
      SubsequenceOfSelf(r[1..]);
    }
  }

  /** Only which values were given matters, not their order or repetition. */
  lemma SelectSitesIgnoresOrder(args: seq<SiteArg>, args': seq<SiteArg>)
    requires forall a :: a in args <==> a in args'
    ensures SelectSites(args) == SelectSites(args')
  {
  }

  /** The default `['all']` selects every site. */
  lemma DefaultSelectsAll()
    ensures SelectSites(DefaultSiteArgs) == SiteOrder
  {
  }

  /** What calling a site's scraper gave: a table, or an exception. */
  datatype ScrapeOutcome = Scraped(table: seq<RawRecord>) | Raised

  /** The collect loop: each selected site is scraped in turn; a table is
      kept, an exception skips the site and the loop goes on. */
  function Collect(sites: seq<Site>, scrape: Site -> ScrapeOutcome): (r: seq<seq<RawRecord>>)
    ensures |r| <= |sites|
  {
    if |sites| == 0 then []
    else
      var outcome := scrape(sites[0]);
      (if outcome.Scraped? then [outcome.table] else []) + Collect(sites[1..], scrape)
  }

  lemma {:induction false} CollectAppend(a: seq<Site>, b: seq<Site>, scrape: Site -> ScrapeOutcome)
    ensures Collect(a + b, scrape) == Collect(a, scrape) + Collect(b, scrape)
    decreases |a|
  {
    if |a| == 0 {
      assert a + b == b;
    } else {
      var head: seq<seq<RawRecord>> := if scrape(a[0]).Scraped? then [scrape(a[0]).table] else [];
      assert (a + b)[0] == a[0];
      assert (a + b)[1..] == a[1..] + b;
      CollectAppend(a[1..], b, scrape);
      assert Collect(a + b, scrape) == head + Collect(a[1..] + b, scrape);
      assert Collect(a, scrape) == head + Collect(a[1..], scrape);
    }
  }

  /** A site whose scraper raises leaves no trace; the sites around it are
      collected as if it were not there. */
  lemma SkipRaisingSite(before: seq<Site>, s: Site, after: seq<Site>, scrape: Site -> ScrapeOutcome)
    requires scrape(s).Raised?
    ensures Collect(before + [s] + after, scrape) == Collect(before, scrape) + Collect(after, scrape)
  {
    assert Collect([s], scrape) == [] by {
      assert [s][1..] == [];
    }
    CollectAppend(before, [s], scrape);
    CollectAppend(before + [s], after, scrape);
  }

  /** When every scraper returns, every table is kept, in site order. */
  lemma {:induction false} CollectAllScraped(sites: seq<Site>, scrape: Site -> ScrapeOutcome)
    requires forall i :: 0 <= i < |sites| ==> scrape(sites[i]).Scraped?
    ensures |Collect(sites, scrape)| == |sites|
    ensures forall i :: 0 <= i < |sites| ==> Collect(sites, scrape)[i] == scrape(sites[i]).table
    decreases |sites|
  {
    if |sites| > 0 {
      CollectAllScraped(sites[1..], scrape);
      var r := Collect(sites, scrape);
      assert r == [scrape(sites[0]).table] + Collect(sites[1..], scrape);
      forall i | 0 <= i < |sites|
        ensures r[i] == scrape(sites[i]).table
      {
        if i > 0 {
          assert sites[1..][i - 1] == sites[i];
        }
      }
    }
  }

  /** Nothing is collected exactly when every scraper raised. */
  lemma {:induction false} CollectEmptyIff(sites: seq<Site>, scrape: Site -> ScrapeOutcome)
    ensures |Collect(sites, scrape)| == 0 <==> forall i :: 0 <= i < |sites| ==> scrape(sites[i]).Raised?
    decreases |sites|
  {
    if |sites| > 0 {
      CollectEmptyIff(sites[1..], scrape);
      if forall i :: 0 <= i < |sites[1..]| ==> scrape(sites[1..][i]).Raised? {
        forall i | 1 <= i < |sites|
          ensures scrape(sites[i]).Raised?
        {
          assert sites[1..][i - 1] == sites[i];
        }
      }
    }
  }

  /** The optional filter flags. */
  datatype Filters = Filters(minPrice: Option<real>, maxPrice: Option<real>, minRating: Option<real>)

  /** The flags when none of them was given. */
  const NoFilters: Filters := Filters(None, None, None)

  /** One boolean mask of `main()`. */
  datatype Cond = PriceAtLeast(bound: real) | PriceAtMost(bound: real) | RatingAtLeast(bound: real)

  /** A row passes a mask. A missing rating is NaN in the table, and NaN
      compares false, so such a row fails the rating mask. */
  predicate Holds(c: Cond, row: CleanRecord) {
    match c
    case PriceAtLeast(b) => row.price >= b
    case PriceAtMost(b) => row.price <= b
    case RatingAtLeast(b) => row.rating.Some? && row.rating.value >= b
  }

  /** The masks applied, in the order `main()` applies them. */
  function Conditions(f: Filters): seq<Cond> {
    (if f.minPrice.Some? then [PriceAtLeast(f.minPrice.value)] else [])
    + (if f.maxPrice.Some? then [PriceAtMost(f.maxPrice.value)] else [])
    + (if f.minRating.Some? then [RatingAtLeast(f.minRating.value)] else [])
  }

  /** `filter_applied`: some filter flag was given. */
  predicate FilterApplied(f: Filters) {
    f.minPrice.Some? || f.maxPrice.Some? || f.minRating.Some?
  }

  /** `df[mask]`: the rows that pass the mask, in order. */
  function Keep(rows: seq<CleanRecord>, c: Cond): (r: seq<CleanRecord>)
    ensures |r| <= |rows|
  {
    if |rows| == 0 then []
    else (if Holds(c, rows[0]) then [rows[0]] else []) + Keep(rows[1..], c)
  }

  /** The masks applied one after another. */
  function ApplyConds(rows: seq<CleanRecord>, conds: seq<Cond>): (r: seq<CleanRecord>)
    ensures |r| <= |rows|
    decreases |conds|
  {
    if |conds| == 0 then rows else ApplyConds(Keep(rows, conds[0]), conds[1..])
  }

  /** The filter block of `main()`. */
  function ApplyFilters(rows: seq<CleanRecord>, f: Filters): (r: seq<CleanRecord>)
    ensures |r| <= |rows|
  {
    ApplyConds(rows, Conditions(f))
  }

  /** The filters as one condition on a row: within the given price bounds,
      with a present rating at least the given minimum. */
  predicate Passes(f: Filters, row: CleanRecord) {
    && (f.minPrice.Some? ==> row.price >= f.minPrice.value)
    && (f.maxPrice.Some? ==> row.price <= f.maxPrice.value)
    && (f.minRating.Some? ==> row.rating.Some? && row.rating.value >= f.minRating.value)
  }

  /** A single pass keeping the rows that meet every filter. */
  function Select(rows: seq<CleanRecord>, f: Filters): seq<CleanRecord> {
    if |rows| == 0 then []
    else (if Passes(f, rows[0]) then [rows[0]] else []) + Select(rows[1..], f)
  }

  predicate AllHold(conds: seq<Cond>, row: CleanRecord) {
    forall c :: c in conds ==> Holds(c, row)
  }

  lemma PassesIff(f: Filters, row: CleanRecord)
    ensures Passes(f, row) <==> AllHold(Conditions(f), row)
  {
    var a: seq<Cond> := if f.minPrice.Some? then [PriceAtLeast(f.minPrice.value)] else [];
    var b: seq<Cond> := if f.maxPrice.Some? then [PriceAtMost(f.maxPrice.value)] else [];
    var c: seq<Cond> := if f.minRating.Some? then [RatingAtLeast(f.minRating.value)] else [];
    var conds := a + b + c;
    assert Conditions(f) == conds;
    if Passes(f, row) {
      forall x | x in conds
        ensures Holds(x, row)
      {
        assert x in a || x in b || x in c;
      }
    }
    if AllHold(conds, row) {
      if f.minPrice.Some? {
        assert Holds(conds[0], row);
      }
      if f.maxPrice.Some? {
        assert Holds(conds[|a|], row);
      }
      if f.minRating.Some? {
        assert Holds(conds[|a| + |b|], row);
      }
    }
  }

  /** A single pass keeping the rows where every condition holds. */
  function KeepAll(rows: seq<CleanRecord>, conds: seq<Cond>): seq<CleanRecord> {
    if |rows| == 0 then []
    else (if AllHold(conds, rows[0]) then [rows[0]] else []) + KeepAll(rows[1..], conds)
  }

  lemma {:induction false} KeepThenKeepAll(rows: seq<CleanRecord>, c: Cond, cs: seq<Cond>)
    ensures KeepAll(Keep(rows, c), cs) == KeepAll(rows, [c] + cs)
    decreases |rows|
  {
    if |rows| > 0 {
      KeepThenKeepAll(rows[1..], c, cs);
      var x := rows[0];
      assert AllHold([c] + cs, x) <==> Holds(c, x) && AllHold(cs, x);
      if Holds(c, x) {
        var k := Keep(rows, c);
        assert k[0] == x && k[1..] == Keep(rows[1..], c);
      } else {
        assert Keep(rows, c) == Keep(rows[1..], c);
      }
    }
  }

  /** Applying the masks one after another is one pass with all of them. */
  lemma {:induction false} ApplyCondsIsKeepAll(rows: seq<CleanRecord>, conds: seq<Cond>)
    ensures ApplyConds(rows, conds) == KeepAll(rows, conds)
    decreases |conds|
  {
    if |conds| == 0 {
      KeepAllNothing(rows);
    } else {
      ApplyCondsIsKeepAll(Keep(rows, conds[0]), conds[1..]);
      KeepThenKeepAll(rows, conds[0], conds[1..]);
      assert [conds[0]] + conds[1..] == conds;
    }
  }

  lemma {:induction false} KeepAllNothing(rows: seq<CleanRecord>)
    ensures KeepAll(rows, []) == rows
    decreases |rows|
  {
    if |rows| > 0 {
      KeepAllNothing(rows[1..]);
    }
  }

  lemma {:induction false} KeepAllIsSelect(rows: seq<CleanRecord>, f: Filters)
    ensures KeepAll(rows, Conditions(f)) == Select(rows, f)
    decreases |rows|
  {
    if |rows| > 0 {
      PassesIff(f, rows[0]);
      KeepAllIsSelect(rows[1..], f);
    }
  }

  /** The sequential masks of `main()` keep the same rows as the single
      pass over the combined condition. */
  lemma ApplyFiltersIsSelect(rows: seq<CleanRecord>, f: Filters)
    ensures ApplyFilters(rows, f) == Select(rows, f)
  {
    ApplyCondsIsKeepAll(rows, Conditions(f));
    KeepAllIsSelect(rows, f);
  }

  /** The filters drop rows and nothing else: a row is kept exactly when it
      was there and meets every given filter. */
  lemma {:induction false} SelectMembership(rows: seq<CleanRecord>, f: Filters, x: CleanRecord)
    ensures x in Select(rows, f) <==> x in rows && Passes(f, x)
    decreases |rows|
  {
    if |rows| > 0 {
      SelectMembership(rows[1..], f, x);
      assert rows == [rows[0]] + rows[1..];
    }
  }

  /** The kept rows keep their relative order. */
  lemma {:induction false} SelectInOrder(rows: seq<CleanRecord>, f: Filters)
    ensures SubsequenceOf(Select(rows, f), rows)
    decreases |rows|
  {
    if |rows| > 0 {
      SelectInOrder(rows[1..], f);
      var r := Select(rows, f);
      if Passes(f, rows[0]) {
        assert r[0] == rows[0] && r[1..] == Select(rows[1..], f);
      } else {
        assert r == Select(rows[1..], f);
      }
    }
  }

  /** What the filters promise, stated on `ApplyFilters` itself: every kept
      row meets the filters, every row meeting them is kept, and the order is
      the input's. */
  lemma FilterContract(rows: seq<CleanRecord>, f: Filters)
    ensures forall x :: x in ApplyFilters(rows, f) <==> x in rows && Passes(f, x)
    ensures SubsequenceOf(ApplyFilters(rows, f), rows)
  {
    ApplyFiltersIsSelect(rows, f);
    SelectInOrder(rows, f);
    forall x
      ensures x in Select(rows, f) <==> x in rows && Passes(f, x)
    {
      SelectMembership(rows, f, x);
    }
  }

  /** Without filter flags the filtered table is the cleaned table. */
  lemma NoFilterKeepsAll(rows: seq<CleanRecord>, f: Filters)
    requires !FilterApplied(f)
    ensures f == NoFilters
    ensures ApplyFilters(rows, f) == rows
  {
    assert Conditions(f) == [];
  }

  /** How the run ends: before cleaning, because no site gave a table, or
      with the filtered table that is then saved. */
  datatype RunOutcome = NoData | Completed(rows: seq<CleanRecord>)

  /** `main()` from site selection to the filtered table. */
  function Run(args: seq<SiteArg>, scrape: Site -> ScrapeOutcome, f: Filters): (r: RunOutcome)
    ensures r.Completed? ==> forall k :: 0 <= k < |r.rows| ==> Passes(f, r.rows[k])
  {
    var tables := Collect(SelectSites(args), scrape);
    if |tables| == 0 then NoData
    else
      var cleaned := CleanData(CombineData(tables));
      FilterContract(cleaned.value, f);
      Completed(ApplyFilters(cleaned.value, f))
  }

  /** The run stops early exactly when every selected scraper raised. */
  lemma RunNoDataIff(args: seq<SiteArg>, scrape: Site -> ScrapeOutcome, f: Filters)
    ensures Run(args, scrape, f).NoData? <==> forall s :: s in SelectSites(args) ==> scrape(s).Raised?
  {
    var sites := SelectSites(args);
    CollectEmptyIff(sites, scrape);
  }

  /** A completed run holds each collected table cleaned on its own,
      concatenated in site order, then filtered in one pass. */
  lemma RunRows(args: seq<SiteArg>, scrape: Site -> ScrapeOutcome, f: Filters)
    requires Run(args, scrape, f).Completed?
    ensures Run(args, scrape, f).rows == Select(CleanEach(Collect(SelectSites(args), scrape)), f)
  {
    var tables := Collect(SelectSites(args), scrape);
    CleanCombined(tables);
    ApplyFiltersIsSelect(CleanEach(tables), f);
  }
}
