# Laptop price scraper: the cleaning pipeline in Dafny

This project models the decision logic of a laptop price scraper. The scraper
collects listings (name, price, rating, availability, site) from Amazon,
Cdiscount and Boulanger. It then combines them into one table, cleans every
field, drops the rows without a price, and filters the rest by price and
rating.

The model covers three parts:

- `utils/data_cleaning.py`, in full: `standardize_name`,
  `standardize_rating`, `standardize_availability`, `clean_data` and
  `combine_data`.
- From `main()` in `main.py`, three decisions written as pure functions:
  - which sites are scraped for the `--sites` values;
  - which scraped tables are kept when a scraper raises;
  - which cleaned rows survive `--min-price`, `--max-price` and `--min-rating`.

Modules, in dependency order:

| module | file | what it holds |
|---|---|---|
| `Wrappers` | wrappers.dfy | `Option` and `Result` |
| `Sequences` | sequences.dfy | subsequences, `Map`, and `FilterMap` with the positions it keeps |
| `Text` | text.dfy | the Python string primitives the cleaning uses: `str.strip()`, `str.lower()`, `str.title()`, `re.sub(r'\s+', ' ', …)` |
| `WordBoundary` | word_boundary.dfy | `re.sub(r'\b' + p + r'\b', rep, s, flags=re.IGNORECASE)` for a word-character pattern, written as a left-to-right scan |
| `NameCleaning` | name_cleaning.dfy | `standardize_name` |
| `Ratings` | ratings.dfy | `standardize_rating` |
| `Availability` | availability.dfy | `standardize_availability` |
| `DataCleaning` | data_cleaning.dfy | records, `clean_data`, `combine_data` |
| `Pipeline` | pipeline.dfy | site selection, the collect loop, the filters, and the run from selection to filtered table |

Representation:

- A table is a `seq` of records.
- A missing cell is `None`. This covers pandas' `None`, and `NaN` after coercion.
- Prices and ratings are `real`.
- Strings are `seq<char>`.
- A scraper is a parameter `Site -> ScrapeOutcome`: the table it returned, or `Raised`.

How the Python behaviour is written out:

- `str.title()` follows CPython's loop. A character is lower-cased when the character before it *in the input* is cased, and upper-cased otherwise.
- The acronym loop is modelled as written: ten successive `re.sub` scans. The pattern is `acronym.title()`, compared ignoring case. `\b` sits between a word character and a non-word character or the string's edge. A word character is one the regex class `\w` matches: on Latin-1, the ASCII letters, digits and `_`, and every Latin-1 character for which `str.isalnum()` holds (ª, ², ³, µ, ¹, º, ¼–¾, and À–ÿ other than × and ÷).
- `NameCleaning.RestorePointwise` proves what the loop computes. A character ends up upper-cased exactly when it lies in a whole word equal, up to case, to one of the acronyms. Every other character is left alone. So the order of the list does not matter.

## Model

| member | source | states |
|---|---|---|
| `Text.Strip` | utils/data_cleaning.py:26 | the stripped name is the slice of the input between a leading and a trailing whitespace run; it neither starts nor ends with whitespace and keeps every non-whitespace character in order |
| `Text.StripKeepsWords` | utils/data_cleaning.py:26 | stripping keeps every word (maximal non-whitespace run) of the name, unchanged and in order |
| `Text.CollapseSpaces` | utils/data_cleaning.py:86 | the collapse never lengthens the name and is empty only for empty input |
| `Text.CollapseShape` | utils/data_cleaning.py:86 | after the collapse no two whitespace characters are adjacent, every whitespace character is a plain space, and the result starts and ends with whitespace exactly when the input does |
| `Text.CollapseKeepsText` | utils/data_cleaning.py:86 | the collapse keeps every non-whitespace character, in order |
| `Text.CollapseKeepsWords` | utils/data_cleaning.py:86 | the collapse keeps every word, unchanged and in order, so no whitespace run disappears and no word is split |
| `Text.CollapseDetermined` | utils/data_cleaning.py:86 | a string with single plain spaces, the input's words, and the input's emptiness and whitespace at either end is the collapse of the input: the collapse's contract admits one result |
| `Text.CollapseFixedPoint` | utils/data_cleaning.py:86 | a name with single plain spaces only is left unchanged by the collapse |
| `Text.TitleFrom` | utils/data_cleaning.py:89 | CPython's title loop, carrying whether the previous character is cased; in the model it keeps the length; `Text.TitleFromPointwise` gives each output character |
| `Text.Title` | utils/data_cleaning.py:89 | `str.title()`: the loop started after an uncased character; in the model it keeps the length; `Text.TitlePointwise` gives each output character |
| `Text.TitlePointwise` | utils/data_cleaning.py:89 | `str.title()` lower-cases a character after a cased character and upper-cases every other one |
| `Text.TitleCaseEq` | utils/data_cleaning.py:89 | `str.title()` changes letters only up to case |
| `Text.TitleIgnoresCase` | utils/data_cleaning.py:89 | two names equal up to case have the same title form |
| `Text.TitleFixed` | utils/data_cleaning.py:89 | a name already in title form is unchanged by `str.title()` |
| `Text.LowerStr` | utils/data_cleaning.py:139 | `str.lower()` keeps the text up to case and leaves no upper-case letter |
| `WordBoundary.NoOverlap` | utils/data_cleaning.py:93-94 | two whole-word matches of a word-character pattern never overlap |
| `WordBoundary.WholeWordIgnoresCase` | utils/data_cleaning.py:94 | whether `\b<pattern>\b` matches under IGNORECASE depends on the letters only up to case |
| `WordBoundary.SubFrom` | utils/data_cleaning.py:94 | the `re.sub` scan from one position on, keeping the length when the replacement is as long as the pattern; `WordBoundary.SubFromPointwise` gives each output character |
| `WordBoundary.SubWholeWord` | utils/data_cleaning.py:94 | one `re.sub(r'\b' + p + r'\b', rep, name, flags=re.IGNORECASE)`, keeping the length for a replacement as long as the pattern; `WordBoundary.SubWholeWordPointwise` gives each output character |
| `WordBoundary.SubWholeWordPointwise` | utils/data_cleaning.py:94 | replacing each whole-word match by the pattern in upper case upper-cases exactly the matched characters and copies the rest |
| `NameCleaning.RestorePointwise` | utils/data_cleaning.py:91-94 | the acronym loop upper-cases exactly the characters inside a whole word equal to an acronym up to case, whatever the order of the list |
| `NameCleaning.RestoreCaseEq` | utils/data_cleaning.py:91-94 | the acronym loop changes letters only up to case |
| `NameCleaning.SingleWordRestore` | utils/data_cleaning.py:91-94 | on a single word the loop upper-cases the whole word when it is an acronym up to case, and otherwise changes nothing |
| `NameCleaning.RestoreWithoutInitials` | utils/data_cleaning.py:91-94 | a name none of whose words starts with an acronym's initial is left unchanged by the loop |
| `NameCleaning.RestoreAcronyms` | utils/data_cleaning.py:91-94 | the acronym loop over a given list, as successive whole-word substitutions; keeps the length; `NameCleaning.RestorePointwise` gives each output character |
| `NameCleaning.RestoreListed` | utils/data_cleaning.py:91-94 | the acronym loop over the ten acronyms of the source, in its order; keeps the length |
| `NameCleaning.StandardizeName` | utils/data_cleaning.py:82-96 | a missing name or exactly "N/A" gives "Unknown Laptop"; any other name comes back with no double whitespace, plain spaces only, the input's words in order and each equal to its input word up to case, and the input's non-whitespace characters in order up to case; it is empty only for empty input and starts and ends with whitespace exactly when the input does |
| `NameCleaning.NameCasing` | utils/data_cleaning.py:85-94 | each character of the collapsed name is upper-cased inside an acronym word, and otherwise cased by the title rule |
| `NameCleaning.SingleWordName` | utils/data_cleaning.py:85-96 | a one-word name becomes its upper case when it is an acronym up to case, and its title form otherwise |
| `NameCleaning.SsdLiteral` | utils/data_cleaning.py:85-96 | "sSd" becomes "SSD" |
| `NameCleaning.SixteenGbLiteral` | utils/data_cleaning.py:85-96 | "16gb" becomes "16Gb": digits and unit form one word, so `\bGb\b` does not match |
| `NameCleaning.UnknownNameFixed` | utils/data_cleaning.py:82-96 | "Unknown Laptop" is a fixed point of `standardize_name` |
| `NameCleaning.StandardizeNameIdempotent` | utils/data_cleaning.py:82-96 | standardising a standardised name changes nothing, unless the first pass produced "N/A" itself |
| `NameCleaning.LowerPlaceholderLiteral` | utils/data_cleaning.py:82-96 | "n/a" escapes the sentinel test but comes back as "N/A" |
| `Ratings.StandardizeRating` | utils/data_cleaning.py:108-124 | a present result lies in [0, 5]; the result is missing exactly when the input is missing, negative or above 100 |
| `Ratings.RatingBuckets` | utils/data_cleaning.py:111-121 | [0, 5] is kept, (5, 10] is halved, (10, 100] is divided by 20; exact 5 and exact 10 go to the lower bucket |
| `Ratings.RatingFixedPointIff` | utils/data_cleaning.py:111-124 | a present rating is unchanged exactly when it is already in [0, 5] |
| `Ratings.RatingIdempotent` | utils/data_cleaning.py:108-124 | standardising twice equals standardising once |
| `Ratings.RatingNeverGrows` | utils/data_cleaning.py:111-121 | standardising never raises a rating |
| `Ratings.RatingMonotoneWithinBucket` | utils/data_cleaning.py:111-121 | inside one bucket the order of ratings is kept |
| `Ratings.RatingOrderAcrossBuckets` | utils/data_cleaning.py:111-118 | across buckets it is not: 5 stays 5 while 6 becomes 3 |
| `Ratings.RatingExamples` | utils/data_cleaning.py:108-124 | 4.5, 5, 8, 10, 85, 100, 150, -1 and a missing rating give 4.5, 5, 4, 5, 4.25, 5, missing, missing, missing |
| `Availability.Contains` | utils/data_cleaning.py:141 | Python's `term in text`, tried from each start position; the empty term is always found and a found term is no longer than the text; `Availability.ContainsIff` characterises it |
| `Availability.ContainsIff` | utils/data_cleaning.py:141 | Python's `term in text` holds exactly when the term occurs at some position of the text |
| `Availability.StandardizeAvailability` | utils/data_cleaning.py:136-144 | the result is one of "Unknown", "Out of Stock", "In Stock"; "Unknown" exactly for a missing value; "Out of Stock" exactly when the lower-cased text has an occurrence of "out of stock", "épuisé", "indisponible" or "not available" |
| `Availability.AvailabilityIgnoresCase` | utils/data_cleaning.py:139-144 | the classification ignores letter case |
| `Availability.ShortWithoutEAcuteIsInStock` | utils/data_cleaning.py:139-144 | a text of at most 11 characters without É or é is "In Stock" |
| `Availability.InStockFixed` | utils/data_cleaning.py:139-144 | "In Stock" is a fixed point |
| `Availability.OutOfStockFixed` | utils/data_cleaning.py:139-142 | "Out of Stock" is a fixed point |
| `Availability.UnknownBecomesInStock` | utils/data_cleaning.py:139-144 | "Unknown" is not a fixed point: it becomes "In Stock" |
| `Availability.DisponibleIsInStock` | utils/data_cleaning.py:139-144 | "Disponible" is "In Stock" |
| `Availability.StartsWithTerm` | utils/data_cleaning.py:139-142 | a text whose lower case starts with an unavailability phrase is "Out of Stock" |
| `Availability.EpuiseIsOutOfStock` | utils/data_cleaning.py:139-142 | "Épuisé - rupture de stock" is "Out of Stock" |
| `DataCleaning.CleanName` | utils/data_cleaning.py:24-28 | a missing name, or one that strips to "N/A", gives "Unknown Laptop"; otherwise the result has no surrounding or doubled whitespace, plain spaces only, the input's words in order each equal up to case, and the non-whitespace characters in order up to case |
| `DataCleaning.CleanNameUnpadded` | utils/data_cleaning.py:24-28 | every cleaned name, the sentinel included, has no surrounding whitespace |
| `DataCleaning.CleanNameIdempotent` | utils/data_cleaning.py:24-28 | cleaning a cleaned name again changes nothing, unless the first pass gave "N/A" |
| `DataCleaning.BlankNameBecomesEmpty` | utils/data_cleaning.py:26-28 | an all-whitespace name becomes the empty name, not the sentinel |
| `DataCleaning.CleanRow` | utils/data_cleaning.py:24-47 | a row is kept exactly when its price is present; a kept row keeps its price and site, has a rating in [0, 5] or none, and one of the three availability values |
| `DataCleaning.CleanRows` | utils/data_cleaning.py:21-50 | cleaning never adds rows |
| `DataCleaning.CleanData` | utils/data_cleaning.py:10-52 | cleaning fails, for want of a `price` column, exactly on the column-less table; otherwise it returns at most as many rows as it was given |
| `DataCleaning.CleanRowsAppend` | utils/data_cleaning.py:21-50 | cleaning a concatenation is concatenating the cleaned parts |
| `DataCleaning.PricedPositions` | utils/data_cleaning.py:47 | lists, in increasing order, exactly the positions of the rows that have a price |
| `DataCleaning.CleanRowsKeepsPricedRows` | utils/data_cleaning.py:47-50 | the cleaned table has one row per priced input row, and its k-th row is the cleaned k-th priced row |
| `DataCleaning.CleanRowsLength` | utils/data_cleaning.py:47-50 | the cleaned table has exactly as many rows as the input has priced rows |
| `DataCleaning.CleanRowIdempotent` | utils/data_cleaning.py:24-44 | cleaning a cleaned row again changes nothing, when its name is not "N/A" and its availability is not "Unknown" |
| `DataCleaning.CleanRowsIdempotent` | utils/data_cleaning.py:21-50 | cleaning a cleaned table again gives the same table, under the same two conditions on every row |
| `DataCleaning.UnknownAvailabilityUnsettled` | utils/data_cleaning.py:43-44 | a row with a missing availability reads "Unknown" after one cleaning and "In Stock" after two |
| `DataCleaning.LowerPlaceholderRowUnsettled` | utils/data_cleaning.py:24-28 | a row named "n/a" is named "N/A" after one cleaning and "Unknown Laptop" after two |
| `DataCleaning.CombineData` | utils/data_cleaning.py:64-68 | no tables give the column-less table; otherwise the combined table has as many rows as all tables together |
| `DataCleaning.Concat` | utils/data_cleaning.py:68 | `pd.concat`: the first table's rows come first; `DataCleaning.ConcatLength`, `DataCleaning.ConcatAppend` and `DataCleaning.CombinedRowPosition` place every row |
| `DataCleaning.ConcatLength` | utils/data_cleaning.py:68 | the concatenation has the total number of rows |
| `DataCleaning.ConcatAppend` | utils/data_cleaning.py:68 | concatenating a list of tables split in two is concatenating the two results |
| `DataCleaning.CombinedRowPosition` | utils/data_cleaning.py:68 | row k of table t sits at position (rows of the tables before t) + k of the combined table; nothing is reordered, merged or dropped |
| `DataCleaning.CleanCombined` | utils/data_cleaning.py:47-68 | cleaning the combination of a non-empty list of tables succeeds, and equals each table cleaned on its own and the results concatenated |
| `Pipeline.SelectSites` | main.py:42-48 | the selected sites come in the fixed order Amazon, Cdiscount, Boulanger |
| `Pipeline.SelectedIff` | main.py:43-48 | a site is selected exactly when `all` or its own key is among the `--sites` values |
| `Pipeline.SelectedSitesDistinct` | main.py:42-48 | no site is selected twice |
| `Pipeline.SelectedSitesInOrder` | main.py:42-48 | the selection is a subsequence of Amazon, Cdiscount, Boulanger |
| `Pipeline.SelectSitesIgnoresOrder` | main.py:43-48 | the selection depends only on which values were given, not on their order or repetition |
| `Pipeline.DefaultSelectsAll` | main.py:24-25 | the default `['all']` selects all three sites |
| `Pipeline.Collect` | main.py:51-60 | the loop keeps at most one table per selected site |
| `Pipeline.CollectAppend` | main.py:52-60 | collecting over two runs of sites is collecting over each and concatenating |
| `Pipeline.SkipRaisingSite` | main.py:54-59 | a site whose scraper raises is skipped and the sites around it are collected as if it were absent |
| `Pipeline.CollectAllScraped` | main.py:52-57 | when no scraper raises, every table is kept, in site order |
| `Pipeline.CollectEmptyIff` | main.py:51-63 | nothing is collected exactly when every selected scraper raised |
| `Pipeline.PassesIff` | main.py:74-84 | a row meets the combined filter exactly when it passes each of the given masks |
| `Pipeline.Keep` | main.py:73-83 | one boolean mask `filtered_df[...]`, which never adds rows; `Pipeline.KeepThenKeepAll` relates successive masks |
| `Pipeline.ApplyFilters` | main.py:69-83 | the masks of the given flags applied one after another, never adding rows; `Pipeline.ApplyFiltersIsSelect` and `Pipeline.FilterContract` state which rows survive |
| `Pipeline.ApplyFiltersIsSelect` | main.py:71-84 | the masks applied one after another keep the same rows as a single pass with the combined filter |
| `Pipeline.SelectMembership` | main.py:74-84 | a row is kept exactly when it was there and is within the given price bounds with a present rating at least the given minimum |
| `Pipeline.SelectInOrder` | main.py:71-84 | the kept rows keep their relative order |
| `Pipeline.FilterContract` | main.py:71-84 | the filtered table holds exactly the input rows meeting every given filter, as a subsequence of the input |
| `Pipeline.NoFilterKeepsAll` | main.py:71-84 | no filter flag given means the flags are `NoFilters`, and then the filtered table is the cleaned table |
| `Pipeline.Run` | main.py:42-84 | every row of a completed run meets the filters |
| `Pipeline.RunNoDataIff` | main.py:61-63 | the run stops before combining and cleaning exactly when every selected scraper raised |
| `Pipeline.RunRows` | main.py:65-84 | a completed run holds each collected table cleaned on its own, concatenated in site order, then filtered |

## Behaviour of the code worth knowing

The model follows the code in each of these cases, some of which a reader
might not expect:

- "16gb" becomes "16Gb", not "16GB" (`NameCleaning.SixteenGbLiteral`):
  - `str.title()` makes it "16Gb";
  - `\b` does not fire between a digit and a letter, so `\bGb\b` never matches inside "16Gb".
- `str.title()` does not work on space-separated words. CPython capitalises a letter whenever the character before it is not cased, so "wi-fi" becomes "Wi-Fi" (`Text.TitlePointwise`).
- An all-whitespace name strips to "", is not the placeholder, and stays "" (`DataCleaning.BlankNameBecomesEmpty`).
- Cleaning a cleaned table again is not always the identity:
  - a missing availability gives "Unknown", which a second pass turns into "In Stock" (`DataCleaning.UnknownAvailabilityUnsettled`);
  - a name "n/a" gives "N/A", which a second pass turns into "Unknown Laptop" (`DataCleaning.LowerPlaceholderRowUnsettled`).
  - Without these two cases a second pass changes nothing (`DataCleaning.CleanRowsIdempotent`).
- `combine_data([])` is `pd.DataFrame()`, which has no columns. `clean_data` on it raises a KeyError at `dropna(subset=['price'])`.
  - The model returns `Failure(MissingPriceColumn)` there (`DataCleaning.CleanData`).
  - `main()` never reaches that call, because it stops when nothing was collected (`Pipeline.Run`, `Pipeline.RunNoDataIff`).

## Left out

- Scrapers (`scraper/amazon.py`, `scraper/cdiscount.py`, `scraper/boulanger.py`): HTTP requests, HTML parsing, random delays and `float()` parsing of page text are I/O. Each scraper is the parameter `scrape: Site -> ScrapeOutcome`.
- `--limit`: it is passed to the scrapers and enters the model only through that parameter.
- `utils/visualizer.py`, the CSV writing, `os.makedirs`, timestamps and every `print`: presentation and file I/O. This includes the "Applied filters" message, which `FilterApplied` describes but nothing prints.
- `argparse`: parsing and validating `--sites` and the numeric flags. The model starts from already-parsed values: `SiteArg` and `Filters`.
- `pd.to_numeric(..., errors='coerce')` on arbitrary strings: prices and ratings arrive as already-parsed `Option<real>`, with `None` for anything that does not parse.
- IEEE floating point, infinities and NaN ordering: prices and ratings are exact reals. NaN appears only as `None`, and it fails every comparison as it does in pandas.
- The copy at `utils/data_cleaning.py:21` and the index reset at line 50 need no model: tables are immutable sequences, and positions are always 0-based.
- Text.IsSpace: whitespace is the Latin-1 part of Python's `str.isspace()` and `\s` only, because no input outside Latin-1 is considered.
- Text.IsWordChar: the `\w` class is exact on Latin-1 only; characters beyond Latin-1 are treated as non-word characters, whereas Python's `\w` matches every Unicode letter and digit.
- Text.Lower: letter case is modelled for ASCII and É/é only. Other non-ASCII letters are treated as uncased, unlike full Unicode case mapping in `str.lower()` and `str.title()`. Case mappings that change the length are therefore absent too: ß (U+00DF) titles to "Ss" in CPython, so `standardize_name("ßd")` gives "SSD" there but "ßD" in the model.
- A table whose `price` column exists but whose name, rating or availability column is missing: every scraper always builds all five columns, so the `if '<column>' in cleaned_df.columns` tests always succeed in this program.
