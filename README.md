# mkmsearch core, modelled in Dafny

mkmsearch is a command-line tool for a trading-card marketplace. It asks the
marketplace to generate monthly purchase reports, downloads the finished
report files, parses the product descriptions in them and lets the user
search the purchases. This project models the decision logic of that tool
and proves what it does:

- **Splitting a description into products** (`split_products`), in
  `split.dfy`. An order's description lists products separated by
  white space, `|`, white space. A separator inside a parenthesised span,
  such as a set name, is not a split point.
- **Parsing one product segment** (`parse_products`), in `segment.dfy`. Each
  regular expression becomes a hand-written matcher for that one pattern,
  searched leftmost, with its "no match" outcome: quantity, product name,
  set name, quality code, language, foil flag, unit price and total.
- **The parsing loops** in `products.dfy`. `parse_products` fills eight
  parallel columns, one entry per segment. `get_dataframe` parses every
  order and tags each product with its order id.
- **Dates** in `dates.dfy`: `datetime.strptime(value, "%Y-%m-%d")` and
  calendar order.
- **Query side of `search`** in `query.dfy`:
  - the filters built from the options, and `filter_data` narrowing the
    rows one filter at a time;
  - the display presets and the filtered columns put in front;
  - the column selection, the row limit and its notice;
  - `truncate_value` for printing.
- **Report selection and download decisions** in `downloads.dfy`:
  - `is_future_date`;
  - the argument check of `download_reports`, its de-duplication of the
    listing, the file-name parse and the download loop over a report folder
    (a class whose file set the loop grows);
  - the selection resolution and the nested year/month loop of
    `generate_reports`.
- **Shared helpers**: `text.dfy` holds the Python string operations the code
  relies on (`strip`, `in`, `split`, `replace`, `int()`, `str()`).
  `seqs.dfy` holds de-duplication by first occurrence, Python slicing and
  concatenation with tags. `outcomes.dfy` holds `Option`, `Result` and the
  "stop at the first error" loop.

**External inputs.** Today's date is a parameter. The local report folder is
a set of file names. The downloads page is a sequence of rows. Each HTTP
POST is a caller-supplied success oracle. The loaded report is a table of
already-typed cells.

**Behaviour of the code worth knowing.**

- **Double-faced token names.** The example line at search.py:95 lists
  `5x Beast Token (G 3/3) / Elemental Token (G 5/3) (Commander 2014)`. The
  lazy name pattern ` (.+?) \(` at search.py:99 stops at the first ` (`, so
  the name taken is `Beast Token` (`SegmentRules.ProductNameOfLayout`).
- **The `PO` quality code.** The last alternative of the quality pattern at
  search.py:101, ` - PO -`, has no trailing space. In the ` - PO - English`
  layout of the example lines its closing `\b` fails, so such segments get
  `N/A` (`SegmentRules.PoorInUsualLayout`). Where the alternative does match,
  the column holds `PO -` (`SegmentRules.PoorTokenCleaned`).
- **Quantity.** `(\d+)x` at search.py:98 accepts any digit run, `0`
  included; the quantity is `None` when there is none, and a quantity of `0`
  gives no total (search.py:137).
- **Rejected download arguments.** `download_reports` exits on an unpaired
  year or month (downloads.py:11-13), and also on a year and month in the
  future (downloads.py:15-17).

## Model

| member | source | states |
|---|---|---|
| Text.Strip | search.py:81-83 | `p.strip()` has no white space at either end, and is empty exactly when `p` is all white space |
| Text.StripIsMiddle | search.py:81-83 | `p.strip()` is the slice of `p` that starts after the leading white space, and everything before and after that slice is white space |
| Text.StripIdempotent | search.py:81 | stripping a stripped piece changes nothing |
| Text.Find | search.py:234 | `p in s` finds the leftmost occurrence, and none exists when it fails |
| Text.SplitOnJoin | downloads.py:59 | `str.split(sep)` loses nothing: joining the pieces with `sep` gives the text back |
| Text.SplitOnPiecesFree | search.py:236 | no piece of `value.split("to")` contains `"to"` |
| Text.ReplaceChar | search.py:133 | `replace(',', '.')` turns each comma into a point and keeps every other character |
| Text.RemoveAll | search.py:119 | `str.replace(pat, "")`, scanning left to right; it never lengthens the text, and `Text.RemoveAllAbsent` and `SegmentRules.MagicPrefixRemoved` state what it removes |
| Text.SplitOn | downloads.py:59 | `str.split(sep)`: at least one piece; `Text.SplitOnJoin` and `Text.SplitOnPiecesFree` state what the pieces are |
| Text.RemoveAllAbsent | search.py:119 | `replace(prefix, "")` leaves a text without the prefix unchanged |
| Text.ParseIntString | downloads.py:189 | `int(str(i)) == i` for every integer, so years and months written as text read back as themselves |
| Text.ParseInt | downloads.py:59 | `int()` on text: surrounding white space, an optional sign, ASCII digits with single underscores between them; its contract is carried by `Text.ParseIntString` and `Text.ParseIntShape` |
| Text.ParseIntShape | downloads.py:59 | text `int()` accepts strips to a sign or an ASCII digit first; the non-ASCII digits `int()` also reads are left out |
| Text.DecimalStringValue | search.py:109 | the digits of `str(n)` read back as `n` |
| Seqs.Dedup | downloads.py:44 | the rows of `{str(row): row for row in rows}.values()`, comparing whole rows, which agrees with comparing the form's HTML because every other field of a row is read from that HTML; `Seqs.DedupSpec` states which rows and in what order |
| Seqs.DedupSpec | downloads.py:44 | `list({str(row): row for row in rows}.values())` holds every row once, all of them, in order of first occurrence |
| Seqs.SliceTo | search.py:209 | `head(limit)` is a prefix of the rows, of length `limit` capped by the row count, with Python's rule for a negative limit |
| Seqs.TagsAligned | search.py:62-68 | element `k` of part `j` lands at `start + k` of the concatenation, tagged with part `j`'s tag |
| Outcomes.CollectSpec | search.py:106-134 | a loop that raises at its first failing step succeeds exactly when every step does, keeps every value in order, and otherwise fails with the first error |
| ProductSplit.NextCut | search.py:82 | the leftmost split point from a position: a white-space, pipe, white-space match whose next parenthesis is not `)` |
| ProductSplit.SplitRaw | search.py:82 | `re.split` with the pattern of white space, pipe, white space not inside parentheses, cutting at the scan's split points; `ProductSplit.SplitRawSpec` states which |
| ProductSplit.SplitRawSpec | search.py:82 | every split point of `re.split` is a white-space, pipe, white-space separator with no `)` as the next parenthesis; the split points come left to right without overlap; every other match of the pattern lies inside an earlier split point's separator; the pieces with the removed separators rebuild the description |
| ProductSplit.CutsComplete | search.py:82 | `re.split` misses no match of the pattern: each lies within the separator of one of the split points |
| ProductSplit.CutsFromOrdered | search.py:82 | the split points increase, each at least three characters after the one before |
| ProductSplit.PiecesFromRoundTrip | search.py:82 | the split from any position loses no character |
| ProductSplit.CleanPieces | search.py:80-84 | `[p.strip() for p in pieces if p.strip()]`: its own contract says only that each kept segment is non-empty and stripped; `ProductSplit.CleanPiecesSpec` states which pieces are kept |
| ProductSplit.KeptFrom | search.py:84 | the indices of the pieces for which `if p.strip()` holds: increasing, each such piece listed, no blank piece listed |
| ProductSplit.CleanPiecesSpec | search.py:80-84 | the result holds exactly the pieces that are not all white space, stripped, in their order: one entry per such piece |
| ProductSplit.SplitProducts | search.py:79-84 | `split_products(s)`: its own contract says each segment is non-empty and stripped; `ProductSplit.SplitProductsSpec` states which segments come out |
| ProductSplit.SplitProductsSpec | search.py:79-84 | the segments are the split's pieces that are not all white space, stripped, in order, and every such piece gives a segment; the pieces rebuild the description |
| ProductSplit.SingleProduct | search.py:79-84 | a description without a pipe that is not blank is one segment, stripped |
| ProductSplit.BlankDescription | search.py:79-84 | an empty or all-white-space description has no segments |
| ProductSplit.SeparatorInsideParentheses | search.py:82 | a separator whose next parenthesis closes a span is no split point, the next one is: two pieces |
| ProductSplit.TwoProductsWithPipeInSetName | search.py:79-84 | a set name holding a separator stays in its product: exactly two stripped segments |
| SegmentRules.FindQuantity | search.py:98 | the leftmost position where `(\d+)x` matches, and no match before it |
| SegmentRules.Quantity | search.py:108-109 | a quantity exists exactly when `(\d+)x` matches somewhere |
| SegmentRules.QuantityOfLeadingCount | search.py:108-109 | a segment starting `<n>x` has quantity `n` |
| SegmentRules.FindName | search.py:99 | the leftmost position where ` (.+?) \(` matches |
| SegmentRules.LazyNameEnd | search.py:99 | the lazy `.+?` stops at the first ` (` and crosses no newline |
| SegmentRules.ProductName | search.py:114-115 | a name exists exactly when the name pattern matches, and it is stripped |
| SegmentRules.ProductNameOfLayout | search.py:114-115 | in `<count> <name> (<rest>` the name is the stripped name up to the first ` (` |
| SegmentRules.FindSet | search.py:100 | the leftmost match of `\(([^()]+)\)(?=[^()]*$)` |
| SegmentRules.SetGroup | search.py:100 | the set group has no parenthesis inside and none after it; there is none exactly when the pattern never matches |
| SegmentRules.TrailingGroupIsSet | search.py:100 | the last parenthesised group, with no parenthesis inside or after, is the set group whatever precedes it |
| SegmentRules.SetNameOfTrailingGroup | search.py:118-119 | the set name of such a segment is that group, cleaned |
| SegmentRules.MagicPrefixRemoved | search.py:119 | the marketplace prefix `Magic: The Gathering`, pipe and spaces included, is removed before stripping |
| SegmentRules.ShortSetNameKept | search.py:119 | a set name shorter than the prefix is only stripped |
| SegmentRules.EarlierGroupsIgnored | search.py:118-119 | a double-faced token's earlier groups do not matter: the trailing group is the set name |
| SegmentRules.QualityTokenShapes | search.py:101 | the seven alternatives: six distinct two-letter codes between ` - ` marks, then ` - PO -` |
| SegmentRules.FindQuality | search.py:122 | the leftmost position where an alternative matches with `\b` on both sides |
| SegmentRules.QualityTokenAt | search.py:101 | the first alternative, in order, that matches at a position and is followed by `\b` |
| SegmentRules.CodeTokenCleaned | search.py:123 | `replace(" - ", "").strip()` turns ` - XX - ` into `XX` |
| SegmentRules.PoorTokenCleaned | search.py:123 | the last alternative keeps its trailing mark: `PO -` |
| SegmentRules.QualityCodeTable | search.py:123 | each alternative cleans to its listed code |
| SegmentRules.Quality | search.py:122-123 | the quality is `N/A` exactly when no alternative matches, and one of the listed codes otherwise |
| SegmentRules.PoorInUsualLayout | search.py:101 | in the usual ` - PO - English` layout no alternative matches at the mark |
| SegmentRules.QualityOfCodeToken | search.py:122-123 | a two-letter code token between word characters, with no match before it, is the quality |
| SegmentRules.FindLanguage | search.py:103 | the leftmost position where a language is named as a whole word |
| SegmentRules.Language | search.py:126-127 | no language exactly when none is named as a whole word; otherwise one of the listed languages, bounded by `\b` on both sides |
| SegmentRules.Foil | search.py:129 | the star exactly when ` - Foil - ` occurs, the cross exactly when it does not |
| SegmentRules.FindPrice | search.py:104 | the leftmost match of `- ([\d,.]+) <currency>` |
| SegmentRules.PriceText | search.py:132 | the captured price is non-empty digits, commas and points, and is absent exactly when the pattern never matches |
| SegmentRules.NormalizedIsDecimal | search.py:133 | after `replace(',', '.')` the price text is digits and points only |
| SegmentRules.ParseFloatAccepts | search.py:133 | `float()` accepts a digits-and-points text exactly when it has at most one point and a digit |
| SegmentRules.DecimalCommaPrice | search.py:133 | a decimal comma reads as a decimal point: `a,b` is `a + b / 10^len(b)` |
| SegmentRules.ThousandsSeparatorRejected | search.py:133 | `1.234,56` becomes `1.234.56`, which `float()` rejects |
| SegmentRules.UnitPrice | search.py:132-134 | no price exactly when the pattern never matches; a price is not negative; a rejected text is the normalised capture |
| SegmentRules.Total | search.py:137 | a total exists exactly when quantity and price are both present and non-zero, and dividing it by the quantity gives the price |
| SegmentRules.ParseSegment | search.py:106-138 | a segment fails exactly when its price text is malformed; otherwise quality, foil, price and total follow their rules |
| Products.ColumnsOf | search.py:140-149 | the eight columns of the rows all have one entry per row |
| Products.ColumnsOfRows | search.py:140-149 | reading row `i` across the eight columns gives back the `i`-th parsed product |
| Products.ColumnsOfConcat | search.py:67 | `pd.concat` of two frames is the frame of the concatenated rows |
| Products.ParseAll | search.py:106-138 | the loop body over all segments, stopping at the first malformed price; `Products.ParseAllSpec` states its result |
| Products.ParseAllSpec | search.py:106-138 | the parse succeeds exactly when every segment parses, with row `i` from segment `i`; otherwise it fails with the first failing segment's error |
| Products.ParseProducts | search.py:86-151 | the loop builds the columns of the parsed segments, in order, one entry per segment, or raises the first malformed price |
| Products.Expand | search.py:55-68 | every order's description parsed and concatenated, each product tagged with its order id; `Products.ExpandSpec` and `Products.ExpandAligned` state its result |
| Products.ExpandSpec | search.py:55-68 | loading succeeds exactly when every order parses, and then products and order ids have the same length |
| Products.ExpandAligned | search.py:57-68 | segment `k` of order `j` becomes the product after those of the orders before `j`, tagged with order `j`'s id |
| Products.ExpandOrders | search.py:55-68 | the order loop builds the columns and the id list of all parsed products; no order at all makes `pd.concat` raise; otherwise the first malformed price raises |
| Dates.MonthAt | search.py:225 | `%m` followed by `-`: a month from 1 to 12 and the index of the `-` |
| Dates.DayAt | search.py:225 | `%d`: a day from 1 to 31 and the index after it |
| Dates.ParseIsoDate | search.py:225 | `strptime` returns only dates that exist |
| Dates.IsoDateRoundTrip | search.py:225 | `strptime` reads back every rendered date that exists and rejects every rendered non-date |
| Dates.TrailingTextRejected | search.py:225 | text left after the day is rejected |
| Query.Select | search.py:228 | `df[mask]` keeps no more rows than it had |
| Query.SelectSpec | search.py:228 | `df[mask]` keeps, in order, exactly the rows whose cell passes, each as many times as the table holds it |
| Query.ApplyFiltersColumns | search.py:217-247 | narrowing keeps the columns and which of them hold text |
| Query.DateCondition | search.py:220-240 | the purchase-date value read as `> date`, `< date`, `a to b` or nothing; `Query.ComparisonCondition`, `Query.RangeOfParts` and `Query.OtherDateValuesKeepEverything` state the cases |
| Query.FilterCondition | search.py:219-246 | which test a filter applies by its column; `Query.TextColumnsSearch` and `Query.OtherColumnsCompare` state the non-date columns |
| Query.ApplyFiltersRows | search.py:217-247 | the result is a subsequence of the rows, holding exactly the rows that pass every filter, each as many times as the table holds it |
| Query.ApplyFiltersErrors | search.py:217-247 | narrowing raises exactly when one filter raises, with the first such filter's error |
| Query.FilterData | search.py:217-247 | the loop over the filters narrows the table as the filters applied in order, or raises the first error |
| Query.ComparisonCondition | search.py:222-233 | `>` or `<` followed by text that strips to a date asks for the dates after or before it |
| Query.LaterIsStrict | search.py:222-228 | `> date` keeps exactly the rows purchased after the date, and not the date itself |
| Query.EarlierIsStrict | search.py:229-233 | `< date` keeps exactly the rows purchased before the date, and not the date itself |
| Query.SplitRange | search.py:236 | `a to b` splits on `"to"` into `a` and `b` when neither holds `"to"` |
| Query.RangeCondition | search.py:234-240 | `a to b` with two dates asks for the range from the first to the second |
| Query.RangeOfParts | search.py:234-240 | a value that is no comparison and splits into two dates asks for that range |
| Query.WithinIsInclusive | search.py:234-240 | `a to b` keeps exactly the rows purchased from `a` to `b`, both ends included |
| Query.OtherDateValuesKeepEverything | search.py:220-240 | any other purchase-date value leaves the table unchanged |
| Query.TextColumnsSearch | search.py:241-243 | a text column keeps the rows whose text contains the value, ignoring case; a missing value never matches |
| Query.OtherColumnsCompare | search.py:244-246 | any other column keeps only the cells equal to the typed text; numbers and dates never match |
| Query.PresetDisplay | search.py:158-170 | the presets `"1"` to `"5"` as the source lists them; any other value passes through unchanged, and each preset is a non-empty list with no empty name at either end |
| Query.ActiveFilters | search.py:172-189 | the filters in the order they are appended; `Query.ActiveFiltersSpec` and `Query.ActiveFiltersOnly` state which |
| Query.ActiveFiltersSpec | search.py:172-189 | each option that is given adds a filter on its own column with the value typed (the star for foil) |
| Query.ActiveFiltersOnly | search.py:172-189 | no filter is added but those of the options given |
| Query.Prepended | search.py:174-191 | each filtered column's name put in front of the list unless it already occurs in it; `Query.PrependedNamesFilters` and `Query.PrependedStep` state it |
| Query.DisplayColumns | search.py:158-191 | the preset, then the filtered columns put in front; `Query.FilteredColumnsDisplayed` states it |
| Query.PrependName | search.py:174-175 | a name put in front of the column list occurs in it, and so does everything the list held |
| Query.PrependedStep | search.py:172-191 | each filter leaves the column list as it is or puts its name and a comma in front |
| Query.PrependedEndsWithDisplay | search.py:172-191 | the original column list stays at the end |
| Query.PrependedNamesFilters | search.py:172-191 | every filtered column's name occurs in the column list, which still ends with the original list |
| Query.FilteredColumnsDisplayed | search.py:158-191 | for any request, every filtered column is named in the displayed columns |
| Query.ColumnsToDisplay | search.py:202 | one stripped name per comma-separated piece of the column list |
| Query.TrailingCommaNamesNothing | search.py:202 | a column list ending in a comma names the empty column |
| Query.PrependedEndsWithComma | search.py:172-191 | with an empty column list and any filter, the list ends in a comma |
| Query.EmptyNameDisplayed | search.py:172-202 | with an empty column list and any filter, the empty name is among the selected columns |
| Query.FirstUnknown | search.py:203 | `df[names]` finds no unknown column exactly when every name is a column |
| Query.NarrowedColumns | search.py:194-198 | filtering and sorting keep the columns |
| Query.EmptyDisplayWithFilterFails | search.py:172-203 | an empty column list with any filter makes the column selection raise |
| Query.TruncateValue | search.py:259-263 | `truncate_value(value, max_length)`; `Query.TruncateValueSpec` states its result |
| Query.TruncateValueSpec | search.py:259-263 | a text longer than the width becomes exactly the width, keeps its beginning and ends in `-`; anything else is unchanged |
| Query.TruncateValueIdempotent | search.py:259-263 | truncating twice is truncating once |
| Query.FitColumn | search.py:266-268 | one name column cut to its width in one row; `Query.PrintRowSpec` states it |
| Query.PrintRow | search.py:266-268 | both name columns cut to 35 characters; `Query.PrintRowSpec` states it |
| Query.Printed | search.py:266-268 | the truncation applied to every row; `Query.PrintedIdempotent` and `Query.LimitedSpec` state it |
| Query.IsEmptyFrame | search.py:272 | pandas' `df.empty`: no rows or no columns; `Query.LimitedSpec` states when it holds after the limit |
| Query.PrintRowSpec | search.py:266-268 | printing keeps a row's columns and every cell outside the two name columns, and cuts a name listed once to 35 characters |
| Query.PrintedIdempotent | search.py:266-268 | printing a printed table changes nothing |
| Query.Sort | search.py:197-198 | `sort_values(by=sort_by)` when a key is given: it raises exactly for a key that names no column, and keeps the columns |
| Query.Project | search.py:203 | `df[names]` raises exactly when some name is no column, naming one such; otherwise it has exactly those columns, every row, and each row holds only the cells of the named columns |
| Query.NarrowedSpec | search.py:194-198 | filtering then sorting fails exactly when a filter raises or the sort key names no column; otherwise the columns stay and the rows are the filtered rows, handed to the sort when a key is given |
| Query.Listing | search.py:172-203 | the filters, the sort and the column selection of `search`; `Query.ListingSpec` states its result |
| Query.ListingSpec | search.py:172-203 | the listing fails exactly when a filter raises, the sort key names no column, or a displayed name is no column; otherwise, with no column list it is the filtered and sorted table, and with one it has exactly the listed columns and row `i` is the filtered and sorted row `i` holding only those cells |
| Query.Limited | search.py:205-277 | `head(limit)` printed by `formatted_output`; `Query.LimitedSpec` states its result |
| Query.LimitedSpec | search.py:205-277 | "No results found." exactly when the limited frame is empty; otherwise the first `limit` rows, each as printed, with the notice exactly when rows were left out, and always after a negative limit |
| Query.ZeroLimitNoResults | search.py:209-273 | a limit of 0 prints "No results found." however many rows matched |
| Query.Search | search.py:154-215 | the whole of `search`: a load or query error is printed, otherwise the limited listing; `Query.SearchLimit` states its result |
| Query.SearchLimit | search.py:154-215 | a search whose load and query succeed prints "No results found." exactly when no row is left after the limit, and otherwise a prefix of its listing cut by the limit, with the notice exactly when rows were left out |
| Downloads.IsFutureDate | downloads.py:184-191 | `is_future_date(year, month)`, with `int()` on both fields and the month read only for today's year; its lemmas follow |
| Downloads.IsFutureDateMeansLater | downloads.py:184-191 | for real months, "future" means a later month than today's |
| Downloads.CurrentMonthNotFuture | downloads.py:184-191 | today's month is never in the future, as numbers or as their text |
| Downloads.TextFieldsRead | downloads.py:189 | a year and month written as decimal text are judged as the numbers themselves |
| Downloads.OtherYearsIgnoreMonth | downloads.py:189 | when the year is not today's, only the year is read, and the month may be anything |
| Downloads.CheckArguments | downloads.py:11-17 | the two argument checks of `download_reports`; `Downloads.CheckArgumentsSpec` states when it refuses |
| Downloads.CheckArgumentsSpec | downloads.py:11-17 | the arguments are refused exactly when one of year and month is set without the other, or when both name a month after today's |
| Downloads.FileYearMonth | downloads.py:56-62 | the year and month read from a report's file name, or none when that raises; `Downloads.FileYearMonthParts`, `Downloads.FileYearMonthOfName` and `Downloads.NoMarkerNoDate` state it |
| Downloads.NoMarkerNoDate | downloads.py:56-62 | a name without `-byPurchaseDate-` gives no year and month |
| Downloads.FileYearMonthOfName | downloads.py:59 | `prefix-byPurchaseDate-YYYY-M-rest` gives `(YYYY, M)` |
| Downloads.FileYearMonthParts | downloads.py:59 | the year and month are the first two `-`-separated fields after the marker, read by `int()` |
| Downloads.Wanted | downloads.py:56-73 | whether one listing row is downloaded; `Downloads.WantedGiven` and `Downloads.DownloadsSkipPresent` state it |
| Downloads.Walk | downloads.py:45-94 | the download loop as a fold over the rows; `Downloads.WalkFiles`, `Downloads.ForcedDownloads` and `Downloads.DownloadsSkipPresent` state its result |
| Downloads.WantedGiven | downloads.py:65-70 | with year and month given, a row is fetched exactly when its name carries them, present or not |
| Downloads.WalkFiles | downloads.py:45-94 | the files after the loop are those before it plus the files of the successful downloads |
| Downloads.ForcedDownloads | downloads.py:65-70 | with year and month given, the loop posts for exactly the rows whose name carries them |
| Downloads.DownloadsSkipPresent | downloads.py:71-73 | without year and month, nothing present or already downloaded is posted for again, and only names with a year and month are |
| Downloads.ReportFolder.constructor | downloads.py:19-20 | the folder holds the given files |
| Downloads.ReportFolder.DownloadReports | downloads.py:10-94 | refused arguments post nothing and change no file; otherwise the loop over the de-duplicated listing posts and stores as the download walk says |
| Downloads.ReportFolder.Fetch | downloads.py:52-91 | one row is fetched as the download rule says, and its file is stored exactly when it was fetched and the post succeeded |
| Downloads.PreviousMonth | downloads.py:141-146 | the year and month of the day before the first of today's month; `Downloads.PreviousMonthSpec` states it |
| Downloads.PreviousMonthSpec | downloads.py:141-146 | the previous month is the month right before today's, and exists except in January of year 1 |
| Downloads.AllMonths | downloads.py:152 | `[1, ..., 12]` |
| Downloads.Row | downloads.py:159 | one pair per month, in order, with the year fixed |
| Downloads.PairsLength | downloads.py:158-159 | the nested loops meet every year with every month |
| Downloads.PairsOrder | downloads.py:158-159 | the pair of year `i` and month `j` comes at `i * len(months) + j`: years in the outer loop |
| Downloads.PairsHoldEvery | downloads.py:158-159 | every year of the selection meets every month of the selection |
| Downloads.Choice | downloads.py:133-155 | the years and months to generate, by the precedence all, current month, previous month, year; `Downloads.GenerateReports` and the `...Generated` lemmas state it |
| Downloads.Submit | downloads.py:158-182 | the pair loop with its exception exit; `Downloads.SubmitSpec` states its result |
| Downloads.Generated | downloads.py:133-182 | the selection and the pair loop together; `Downloads.AllOptionsGenerated`, `Downloads.CurrentMonthGenerated`, `Downloads.PreviousMonthGenerated`, `Downloads.YearWithoutMonth` and `Downloads.NothingSelected` state it |
| Downloads.SubmitSpec | downloads.py:158-182 | only pairs not in the future are posted, in order; the run stops exactly when some pair cannot be read; otherwise every pair not in the future is posted |
| Downloads.StopEarly | downloads.py:158-182 | once an exception ends the run inside a year, the later pairs change nothing |
| Downloads.PostPairs | downloads.py:158-180 | the nested loops post as the pair loop over the year-major pairs |
| Downloads.GenerateReports | downloads.py:97-182 | the selection is resolved by precedence and its pairs are posted as the pair loop says |
| Downloads.AllOptionsGenerated | downloads.py:133-135 | with "all", only pairs not in the future are posted, and, unless the run stops, every option pair not in the future is |
| Downloads.CurrentMonthGenerated | downloads.py:137-140 | the current-month option posts exactly today's year and month |
| Downloads.PreviousMonthGenerated | downloads.py:141-146 | the previous-month option posts exactly the month before today's |
| Downloads.YearWithoutMonth | downloads.py:147-152 | a year without a month posts every month of a past year, today's months of the current year, nothing for a later year |
| Downloads.SubmitYearMonths | downloads.py:152-160 | the months of one year are posted up to the last one that is not in the future |
| Downloads.SinglePair | downloads.py:158-160 | a single pair is posted unless it is in the future or unreadable |
| Downloads.NothingSelected | downloads.py:153-155 | with no option set nothing is generated |

## Left out

- `login.py` (HTTP session and credential handling), `utils.py` (the random request delay), `mkm.py` (command-line wiring) and `create_build.py` (packaging) are not part of this model: they are network access, randomness and tooling.
- CSV reading, `pd.to_datetime`, `drop_duplicates`, `set_index`, the `merge` with the order columns and the rich/`to_string` printing are left out. A loaded report is a table of typed cells, and the purchase dates are already dates.
- `sort_values` is a sorter supplied by the caller. pandas' default sort is not stable, so no row order is claimed after sorting.
- HTTP GET and POST, the HTML parsing of forms and select options, `os.makedirs`, file writes, `print` and `sleep` are left out. Each POST is a caller-supplied oracle, the folder is a set of names, and the page rows and option values are inputs.
- The error messages printed by `search` and the two scripts are left out. Only the kind of error and the point where it stops the run are modelled.
- Prices are exact decimals (`real`), not IEEE floats. `float()` is modelled only on the digits-and-points texts the price pattern can capture.
- Seqs.Dedup: the listing rows are de-duplicated as whole records rather than by `str(row)`. A row's token, request id and caption are all read from its form, so two rows with the same HTML are the same record.
- `\w`, `\d` and `\b` are ASCII only; Python also counts other Unicode letters and digits.
- Text.ParseIntShape: `int()` also reads non-ASCII decimal digits (`int("２０２４") == 2024`); the model reads only ASCII digits, so such a year or month is refused here (downloads.py:59, 189).
- Text.ParseInt: same gap as `Text.ParseIntShape`; only ASCII digits are read.
- Dates.ParseIsoDate: `strptime`'s `%Y`, `%m` and `%d` also match non-ASCII decimal digits; the model reads only ASCII digits.
- The currency is matched as literal text. The source splices it into the pattern unescaped, which is the same for the letter codes reports use.
- `str.contains(value, case=False)` is a literal substring test with ASCII case folding. Regular-expression syntax in a typed filter value is not interpreted.
- Query.OtherColumnsCompare: the comparison with a non-text column is modelled as equality with the typed text. pandas would compare an object column cell by cell the same way, and a numeric column never matches a string.
- A purchase-date cell that is not a date (`NaT`) passes no date test. Comparing other cell kinds with a date, which pandas would raise on, is not modelled.
- Query.PrintRowSpec: a name column listed twice is left as it is, which matches pandas: `df[column]` is then a frame, `truncate_value` receives a whole column, which is no `str`, and returns it unchanged.
- Downloads.ReportFolder.Fetch: `continue` is written as a single exit, and the body of the download loop is this helper method.
- Downloads.PostPairs: the nested loops of `generate_reports` are this helper, and the first exception ends it with `stopped` set. A failed POST only moves on, so it has no observable effect in the model.
- `datetime.today()` is the `today` parameter. Each call in the source reads the clock anew, so a run across midnight at the end of a month is not modelled.
- The generic loops (`Outcomes.Collect`, `Downloads.WalkBy`, `Downloads.SubmitBy`, `Query.ApplyFiltersBy`) take the step function as a parameter. Their lemmas are restated for the concrete step and listed above under the concrete name.
