/** `clean_data` and `combine_data`: the per-row normalisation of a scraped
    table, the removal of rows without a price, and the concatenation of the
    per-site tables. A table is a sequence of records; a missing cell
    (None, or NaN after numeric coercion) is `None`. */
module DataCleaning {
  import opened Wrappers
  import opened Sequences
  import opened Text
  import opened NameCleaning
  import opened Ratings
  import opened Availability

  /** A scraped row, with the five columns every scraper produces. */
  datatype RawRecord = RawRecord(
    name: Option<string>,
    price: Option<real>,
    rating: Option<real>,
    availability: Option<string>,
    site: string)

  /** A cleaned row: the price is present, the name and availability are
      always filled in, the rating may still be missing. */
  datatype CleanRecord = CleanRecord(
    name: string,
    price: real,
    rating: Option<real>,
    availability: string,
    site: string)

  /** A combined table. `pd.DataFrame()` of an empty list of tables has no
      columns at all, not even `price`. */
  datatype Frame = NoColumns | Table(rows: seq<RawRecord>)

  /** `dropna(subset=['price'])` on a table without a `price` column raises
      a KeyError. */
  datatype CleanError = MissingPriceColumn

  /** The name column: `str.strip()`, then `standardize_name`. A missing
      name stays missing through `strip` and becomes the sentinel. */
  function CleanName(name: Option<string>): (r: string)
    ensures name.None? || Strip(name.value) == Placeholder ==> r == UnknownName
    ensures name.Some? && Strip(name.value) != Placeholder ==>
      && NoDoubleSpace(r)
      && SpacesArePlain(r)
      && CaseEq(NonSpace(r), NonSpace(name.value))
      && (|r| == 0 || (!IsSpace(r[0]) && !IsSpace(r[|r| - 1])))
      && |Words(r)| == |Words(name.value)|
      && (forall k :: 0 <= k < |Words(r)| ==> CaseEq(Words(r)[k], Words(name.value)[k]))
  {
    match name
    case None => StandardizeName(None)
    case Some(s) =>
      var r := StandardizeName(Some(Strip(s)));
      StripThenStandardize(s);
      r
  }

  /** What `standardize_name` promises about the stripped name, read back
      on the name before stripping. */
  lemma StripThenStandardize(s: string)
    ensures Strip(s) == Placeholder ==> StandardizeName(Some(Strip(s))) == UnknownName
    ensures var r := StandardizeName(Some(Strip(s)));
      Strip(s) != Placeholder ==>
      && NoDoubleSpace(r)
      && SpacesArePlain(r)
      && CaseEq(NonSpace(r), NonSpace(s))
      && (|r| == 0 || (!IsSpace(r[0]) && !IsSpace(r[|r| - 1])))
      && |Words(r)| == |Words(s)|
      && (forall k :: 0 <= k < |Words(r)| ==> CaseEq(Words(r)[k], Words(s)[k]))
  {
    var t := Strip(s);
    StripKeepsWords(s);
    assert NonSpace(t) == NonSpace(s);
  }

  /** A cleaned name has no surrounding whitespace, the sentinel included. */
  lemma CleanNameUnpadded(name: Option<string>)
    ensures var r := CleanName(name); |r| == 0 || (!IsSpace(r[0]) && !IsSpace(r[|r| - 1]))
  {
    UnknownNameSpelled();
  }

  /** Cleaning a cleaned name changes nothing, unless the first pass produced
      the placeholder "N/A" itself (from "n/a", say). */
  lemma CleanNameIdempotent(name: Option<string>)
    requires CleanName(name) != Placeholder
    ensures CleanName(Some(CleanName(name))) == CleanName(name)
  {
    var r := CleanName(name);
    CleanNameUnpadded(name);
    StripUnpadded(r);
    match name
    case None => StandardizeNameIdempotent(None);
    case Some(s) => StandardizeNameIdempotent(Some(Strip(s)));
  }

  /** A blank name is not treated as missing: it comes back empty. */
  lemma BlankNameBecomesEmpty(s: string)
    requires forall i :: 0 <= i < |s| ==> IsSpace(s[i])
    ensures CleanName(Some(s)) == ""
  {
    NonSpaceOfBlank(s);
  }

  /** One row of `clean_data`: `None` when the row is dropped for a missing
      price, else the row with its columns normalised and its price and site
      as they were. */
  function CleanRow(x: RawRecord): (r: Option<CleanRecord>)
    ensures r.Some? <==> x.price.Some?
    ensures r.Some? ==> r.value.price == x.price.value && r.value.site == x.site
    ensures r.Some? ==> r.value.rating.Some? ==> OnFivePointScale(r.value.rating.value)
    ensures r.Some? ==> r.value.availability in {UnknownStatus, OutOfStock, InStock}
  {
    if x.price.None? then None
    else Some(CleanRecord(
      CleanName(x.name),
      x.price.value,
      StandardizeRating(x.rating),
      StandardizeAvailability(x.availability),
      x.site))
  }

  /** `clean_data` on the rows of a table: every row cleaned, the rows
      without a price dropped, the rest kept in order. */
  function CleanRows(rows: seq<RawRecord>): (r: seq<CleanRecord>)
    ensures |r| <= |rows|
  {
    FilterMap(rows, CleanRow)
  }

  /** `clean_data`: fails only on a table without columns. */
  function CleanData(frame: Frame): (r: Result<seq<CleanRecord>, CleanError>)
    ensures r.Failure? <==> frame.NoColumns?
    ensures r.Success? ==> |r.value| <= |frame.rows|
  {
    match frame
    case NoColumns => Failure(MissingPriceColumn)
    case Table(rows) => Success(CleanRows(rows))
  }

  /** Cleaning distributes over concatenation: each row is cleaned on its own. */
  lemma CleanRowsAppend(a: seq<RawRecord>, b: seq<RawRecord>)
    ensures CleanRows(a + b) == CleanRows(a) + CleanRows(b)
  {
    FilterMapAppend(a, b, CleanRow);
  }

  /** The positions of the rows that have a price, in increasing order. */
  function PricedPositions(rows: seq<RawRecord>): (p: seq<int>)
    ensures forall k :: 0 <= k < |p| ==> 0 <= p[k] < |rows| && rows[p[k]].price.Some?
    ensures forall k, l :: 0 <= k < l < |p| ==> p[k] < p[l]
    ensures forall i :: 0 <= i < |rows| && rows[i].price.Some? ==> i in p
  {
    KeptPositionsValid(rows, CleanRow);
    KeptPositionsIncreasing(rows, CleanRow);
    KeptPositionsComplete(rows, CleanRow);
    KeptPositions(rows, CleanRow)
  }

  /** The cleaned table is, in order, the cleaned forms of exactly the rows
      that have a price: its `k`-th row comes from the `k`-th priced row. */
  lemma CleanRowsKeepsPricedRows(rows: seq<RawRecord>)
    ensures |CleanRows(rows)| == |PricedPositions(rows)|
    ensures forall k :: 0 <= k < |PricedPositions(rows)| ==>
      CleanRow(rows[PricedPositions(rows)[k]]) == Some(CleanRows(rows)[k])
  {
    FilterMapAtKept(rows, CleanRow);
  }

  /** The cleaned table has exactly as many rows as the input has rows
      with a price. */
  lemma CleanRowsLength(rows: seq<RawRecord>)
    ensures |CleanRows(rows)| == |PricedPositions(rows)| <= |rows|
  {
    CleanRowsKeepsPricedRows(rows);
  }

  /** The cleaned row, written back as a scraped row. */
  function AsRaw(c: CleanRecord): (x: RawRecord)
    ensures x.price == Some(c.price) && x.site == c.site && x.rating == c.rating
  {
    RawRecord(Some(c.name), Some(c.price), c.rating, Some(c.availability), c.site)
  }

  /** Rows on which a second cleaning is the identity: not the placeholder
      name "N/A" (which would become "Unknown Laptop") and not the
      availability "Unknown" (which would become "In Stock"). */
  predicate Settled(c: CleanRecord) {
    c.name != Placeholder && c.availability != UnknownStatus
  }

  /** Cleaning a cleaned row again changes nothing, when it is settled. */
  lemma CleanRowIdempotent(x: RawRecord)
    requires CleanRow(x).Some? && Settled(CleanRow(x).value)
    ensures CleanRow(AsRaw(CleanRow(x).value)) == CleanRow(x)
  {
    var c := CleanRow(x).value;
    CleanNameIdempotent(x.name);
    RatingIdempotent(x.rating);
    if c.availability == InStock {
      InStockFixed();
    } else {
      OutOfStockFixed();
    }
  }

  /** Cleaning a cleaned table again gives the same table, when every row
      is settled. */
  lemma CleanRowsIdempotent(rows: seq<RawRecord>)
    requires forall k :: 0 <= k < |CleanRows(rows)| ==> Settled(CleanRows(rows)[k])
    ensures CleanRows(Map(CleanRows(rows), AsRaw)) == CleanRows(rows)
  {
    var r := CleanRows(rows);
    CleanRowsKeepsPricedRows(rows);
    forall k | 0 <= k < |r|
      ensures CleanRow(AsRaw(r[k])) == Some(r[k])
    {
      CleanRowIdempotent(rows[PricedPositions(rows)[k]]);
    }
    FilterMapUndoesMap(r, AsRaw, CleanRow);
  }

  /** Without the availability condition idempotence fails: a row whose
      availability is missing reads "Unknown" after one cleaning and
      "In Stock" after two. */
  lemma UnknownAvailabilityUnsettled(x: RawRecord)
    requires x.price.Some? && x.availability.None?
    ensures CleanRow(AsRaw(CleanRow(x).value)).value.availability == InStock != CleanRow(x).value.availability
  {
    UnknownBecomesInStock();
  }

  /** Without the name condition idempotence fails: "n/a" is cleaned to
      "N/A", which a second cleaning turns into "Unknown Laptop". */
  lemma LowerPlaceholderUnsettled(x: RawRecord, w: string)
    requires x.price.Some? && x.name == Some(w)
    requires |w| == 3 && w[0] == 'n' && w[1] == '/' && w[2] == 'a'
    ensures CleanRow(x).value.name == Placeholder
    ensures CleanRow(AsRaw(CleanRow(x).value)).value.name == UnknownName
  {
    StripUnpadded(w);
    LowerPlaceholderBecomesPlaceholder(w);
    StripUnpadded(Placeholder);
  }

  lemma LowerPlaceholderRowUnsettled(x: RawRecord)
    requires x.price.Some? && x.name == Some("n/a")
    ensures CleanRow(x).value.name == "N/A"
    ensures CleanRow(AsRaw(CleanRow(x).value)).value.name == "Unknown Laptop"
  {
    LowerPlaceholderUnsettled(x, "n/a");
  }

  /** The concatenation of the tables, in list order. */
  function Concat(tables: seq<seq<RawRecord>>): (r: seq<RawRecord>)
    ensures |tables| > 0 ==> |tables[0]| <= |r| && r[..|tables[0]|] == tables[0]
  {
    if |tables| == 0 then [] else tables[0] + Concat(tables[1..])
  }

  /** The number of rows over all tables. */
  function TotalRows(tables: seq<seq<RawRecord>>): nat {
    if |tables| == 0 then 0 else |tables[0]| + TotalRows(tables[1..])
  }

  /** `combine_data`: no tables give a table without columns; otherwise the
      rows of all tables, renumbered from 0 (`ignore_index=True`). */
  function CombineData(tables: seq<seq<RawRecord>>): (r: Frame)
    ensures r.NoColumns? <==> |tables| == 0
    ensures r.Table? ==> |r.rows| == TotalRows(tables)
  {
    ConcatLength(tables);
    if |tables| == 0 then NoColumns else Table(Concat(tables))
  }

  lemma {:induction false} ConcatLength(tables: seq<seq<RawRecord>>)
    ensures |Concat(tables)| == TotalRows(tables)
    decreases |tables|
  {
    if |tables| > 0 {
      ConcatLength(tables[1..]);
    }
  }

  lemma {:induction false} ConcatAppend(a: seq<seq<RawRecord>>, b: seq<seq<RawRecord>>)
    ensures Concat(a + b) == Concat(a) + Concat(b)
    decreases |a|
  {
    if |a| == 0 {
      assert a + b == b;
    } else {
      assert (a + b)[0] == a[0];
      assert (a + b)[1..] == a[1..] + b;
      ConcatAppend(a[1..], b);
    }
  }

  /** Row `k` of table `t` sits in the combined table right after all rows of
      the tables before `t`: nothing is reordered, merged or dropped. */
  lemma CombinedRowPosition(tables: seq<seq<RawRecord>>, t: int, k: int)
    requires 0 <= t < |tables| && 0 <= k < |tables[t]|
    ensures CombineData(tables).Table?
    ensures TotalRows(tables[..t]) + k < |CombineData(tables).rows|
    ensures CombineData(tables).rows[TotalRows(tables[..t]) + k] == tables[t][k]
  {
    assert tables == tables[..t] + tables[t..];
    ConcatAppend(tables[..t], tables[t..]);
    ConcatLength(tables[..t]);
    assert tables[t..][0] == tables[t];
  }

  /** Combining then cleaning is cleaning each table and concatenating. */
  lemma {:induction false} CleanCombined(tables: seq<seq<RawRecord>>)
    requires |tables| > 0
    ensures CleanData(CombineData(tables)) == Success(CleanEach(tables))
    decreases |tables|
  {
    if |tables| > 1 {
      CleanCombined(tables[1..]);
    }
    CleanRowsAppend(tables[0], Concat(tables[1..]));
  }

  /** Each table cleaned on its own, the results concatenated. */
  function CleanEach(tables: seq<seq<RawRecord>>): seq<CleanRecord> {
    if |tables| == 0 then [] else CleanRows(tables[0]) + CleanEach(tables[1..])
  }
}
