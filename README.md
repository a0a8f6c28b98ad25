# ReportAnalysis EDGAR back end, modelled in Dafny

This project models the Python back end under `Backend/edgar-sec`, which
builds financial trends and report sections for a listed company from SEC
EDGAR data:

- **SecApi** (`sec_api_utils.py`):
  - looks up a company's CIK from its ticker;
  - selects the 10-K or 10-Q filings from the submissions list;
  - flattens the XBRL company facts into rows;
  - removes duplicate rows;
  - keeps the rows that belong to the selected filings;
  - pivots them into a fact-by-period table;
  - joins the quarterly table with the annual one on the fact.
- **Tables**: the fact-by-period table that all of the stages share. A
  table is a list of periods plus a list of named series of cells. Reading
  a column and setting one (`df[c]`, `df[c] = cells`) are defined here.
- **Ratios** (`create_dataframe.py`):
  - derives the effective revenue and the operating margin;
  - runs the twenty entries of the ratio dictionary in declaration order.
    An entry whose required columns are missing is skipped. Otherwise its
    operation adds a column. An operation that reads a missing column
    raises `KeyError`.
- **Reports** (`process_reports.py`):
  - finds where the table of contents ends;
  - extracts the table-of-contents headers;
  - cuts a section out of the normalised text of the pages that follow;
  - prettifies the section sentence by sentence;
  - builds the dictionary of all sections.
- **Trends** (`save_dataframe.py`):
  - turns every fact row into a dated series;
  - upserts the document under the lower-cased ticker;
  - inserts the record form of the table;
  - looks a document up by ticker and loads its financials, which fails
    when they are trend series of different lengths.
- **Filings** (`save_reports_info.py`):
  - finds the first filing of a form in the submissions lists;
  - builds its archive URL;
  - stores the rendered PDF under `<ticker>_<form>_report.pdf`, in a folder
    or in a GridFS bucket, unless a file of that name exists.
- **Text** and **Order** hold what the Python string methods and `sorted`
  do for these modules: ASCII case, `\s` runs, `strip`, `zfill`, decimal
  digits, and the code-point order of strings.

The model handles its inputs as values:

- Every HTTP response is a parameter: the company directory, the
  submissions lists and the company facts.
- So are the pages of a PDF, the table-of-contents matches and a PDF
  rendering. A rendering is `None` when it fails.
- Dates are ISO strings, whose string order is the date order.
- Numbers are reals.

Loops in the source are methods. Each is proved equal to a function, and
the lemmas state what that function means. The two collections that the
code updates in place, the Mongo collection and the file store, are
classes.

## Model

| member | source | states |
|---|---|---|
| Text.UpperStr | Backend/edgar-sec/process_reports.py:103 | `upper()` keeps the length and maps each character through the ASCII upper-casing, which leaves non-letters alone |
| Text.LowerStr | Backend/edgar-sec/process_reports.py:11 | `lower()` keeps the length and maps each character through the ASCII lower-casing |
| Text.LowerStrIsLower | Backend/edgar-sec/process_reports.py:11 | a lowered string holds no upper-case letter |
| Text.SkipSpacesSpec | Backend/edgar-sec/process_reports.py:107 | `\s*` from `i` consumes exactly the maximal whitespace run |
| Text.SkipDigitsSpec | Backend/edgar-sec/process_reports.py:107 | `\d+` consumes exactly the maximal digit run |
| Text.Strip | Backend/edgar-sec/process_reports.py:122 | `strip()` returns a slice of its input that neither starts nor ends with whitespace, and everything cut off before and after the slice is whitespace |
| Text.CollapseSpacesSpec | Backend/edgar-sec/process_reports.py:103 | `re.sub(r'\s+', ' ', s)` keeps the visible characters in order, turns every remaining whitespace into a single space and leaves no two whitespace characters adjacent |
| Text.CollapseSpacesRun | Backend/edgar-sec/process_reports.py:103 | a non-empty whitespace run becomes exactly one space |
| Text.CollapseSpacesVisible | Backend/edgar-sec/process_reports.py:103 | text without whitespace is unchanged |
| Text.CollapseSpacesAppend | Backend/edgar-sec/process_reports.py:103 | the substitution works piece by piece when the cut does not fall inside a whitespace run |
| Text.CollapseSpacesBetween | Backend/edgar-sec/process_reports.py:103-104 | a whitespace run between two visible characters becomes exactly one space, and the text on either side is collapsed on its own |
| Text.DecimalRoundTrip | Backend/edgar-sec/sec_api_utils.py:14 | `str(n)` reads back as `n` |
| Text.ZFillSpec | Backend/edgar-sec/sec_api_utils.py:14 | `zfill(w)` pads to width `w` with leading zeros only, keeps the digits as a suffix and keeps the numeric value |
| Order.BelowTotal | Backend/edgar-sec/sec_api_utils.py:106 | the string order that `sorted` uses is total |
| Order.BelowTransitive | Backend/edgar-sec/sec_api_utils.py:106 | that order is transitive |
| Order.BelowAntisymmetric | Backend/edgar-sec/sec_api_utils.py:106 | that order is antisymmetric |
| Order.SortedDistinct | Backend/edgar-sec/sec_api_utils.py:106 | the column labels come out strictly ascending, with the same set of labels |
| Order.Insert | Backend/edgar-sec/sec_api_utils.py:106 | inserting into an ascending list keeps it ascending and adds exactly the new label |
| Tables.FirstCells | Backend/edgar-sec/create_dataframe.py:24 | `df[c]` is present exactly when some series is named `c`, and is the first such series' cells |
| Tables.SetColumn | Backend/edgar-sec/create_dataframe.py:9 | after `df[c] = cells` the periods are unchanged and column `c` reads back as `cells` |
| Tables.SetColumnSpec | Backend/edgar-sec/create_dataframe.py:9 | setting a column keeps the old columns as a prefix, appends one column exactly when `c` was missing, and leaves every other column as it was |
| Tables.ColumnOfDistinct | Backend/edgar-sec/create_dataframe.py:24 | when no two columns share a name, `df[c]` is the one column named `c` |
| Tables.SetColumnKeepsDistinct | Backend/edgar-sec/create_dataframe.py:9 | `df[c] = cells` never creates a second column with the same name |
| SecApi.NormalizeTicker | Backend/edgar-sec/sec_api_utils.py:7 | `upper().replace(".", "-")`, character by character: lower-case letters are raised, dots become dashes, everything else is kept |
| SecApi.NormalizeIdempotent | Backend/edgar-sec/sec_api_utils.py:7 | normalising a ticker twice is normalising it once |
| SecApi.CikStringSpec | Backend/edgar-sec/sec_api_utils.py:14 | `str(cik).zfill(10)` is all digits, at least ten long, ends with the decimal CIK and reads back as the CIK |
| SecApi.CikNumber | Backend/edgar-sec/sec_api_utils.py:6-16 | succeeds exactly when some directory entry has the normalised ticker; it then returns the padded CIK of the first such entry, and otherwise the not-found error |
| SecApi.OfFormMembers | Backend/edgar-sec/sec_api_utils.py:38-44 | the selected accessions are exactly the (report date, accession number) pairs of the filings of that form |
| SecApi.OfFormAppend | Backend/edgar-sec/sec_api_utils.py:39-41 | selecting by form distributes over concatenation of the filing list |
| SecApi.FilteredFilings | Backend/edgar-sec/sec_api_utils.py:34-45 | only `ten_k` and `ten_q` succeed; any other form ends in the unbound-`df` error |
| SecApi.FilteredFilingsMembers | Backend/edgar-sec/sec_api_utils.py:38-44 | `ten_k` selects the 10-K filings and `ten_q` the 10-Q filings, and nothing else |
| SecApi.ItemRows | Backend/edgar-sec/sec_api_utils.py:59-62 | one row per item of a unit, in order, each tagged with its fact |
| SecApi.AppendItems | Backend/edgar-sec/sec_api_utils.py:59-62 | the innermost loop appends exactly the item rows of one unit |
| SecApi.FlattenFacts | Backend/edgar-sec/sec_api_utils.py:56-62 | the three nested loops build exactly the flattened row list |
| SecApi.FlattenMembers | Backend/edgar-sec/sec_api_utils.py:56-62 | a row is emitted exactly when it is some item of some unit of its fact |
| SecApi.UnitRowsMembers | Backend/edgar-sec/sec_api_utils.py:58-62 | a fact's rows are exactly its units' items tagged with the fact |
| SecApi.FlattenLength | Backend/edgar-sec/sec_api_utils.py:56-62 | one row per item: the row count is the total item count |
| SecApi.UnitRowsLength | Backend/edgar-sec/sec_api_utils.py:58-62 | a fact contributes as many rows as its units hold items |
| SecApi.LabelsSpec | Backend/edgar-sec/sec_api_utils.py:69 | the label map has a key for every fact, and a fact's label is that of its last occurrence |
| SecApi.KeepFirstSpec | Backend/edgar-sec/sec_api_utils.py:67 | `drop_duplicates` keeps every key, leaves keys distinct, and each kept row is the first row with its key |
| SecApi.KeepLastSpec | Backend/edgar-sec/sec_api_utils.py:86 | `drop_duplicates(keep="last")` keeps every key, leaves keys distinct, and each kept row is the last row with its key |
| SecApi.FactsDF | Backend/edgar-sec/sec_api_utils.py:53-70 | the fact frame: the flattened rows with duplicate (fact, end, val) rows dropped, plus the label map |
| SecApi.FactsFrameSpec | Backend/edgar-sec/sec_api_utils.py:64-70 | fails exactly when there are no rows or no row has a `start`; otherwise it keeps one emitted row per (fact, end, val) and labels every fact |
| SecApi.FiledMembers | Backend/edgar-sec/sec_api_utils.py:75-76 | the two `isin` filters keep exactly the rows that match a selected accession number and a selected report date |
| SecApi.FiledAppend | Backend/edgar-sec/sec_api_utils.py:75-76 | the filters distribute over concatenation of the row list |
| SecApi.CellsSpec | Backend/edgar-sec/sec_api_utils.py:77 | a pivot cell exists exactly where some row of that fact ends at that period, and holds the value of the last such row |
| SecApi.PivotSpec | Backend/edgar-sec/sec_api_utils.py:77-79 | the periods are the rows' end dates, ascending and distinct; the rows are the distinct facts in ascending order under their labels; cells lie within the periods |
| SecApi.PivotCells | Backend/edgar-sec/sec_api_utils.py:77-79 | the cells of one pivot row are exactly the reported periods of its fact |
| SecApi.AnnualRowsFiled | Backend/edgar-sec/sec_api_utils.py:72-77 | a row reaches the annual pivot exactly when its accession number is a 10-K's and its end date is a 10-K's report date |
| SecApi.QuarterlyRowsSpec | Backend/edgar-sec/sec_api_utils.py:81-87 | the quarterly path keeps one row per (fact, end), namely the last filtered one |
| SecApi.MatchesNames | Backend/edgar-sec/sec_api_utils.py:100 | a quarterly row is joined with annual rows exactly when the annual table has its fact |
| SecApi.MatchesPairs | Backend/edgar-sec/sec_api_utils.py:100 | every joined row carries its fact and the quarterly cells next to one matching annual row's cells |
| SecApi.JoinSeriesSpec | Backend/edgar-sec/sec_api_utils.py:100 | the inner merge on `fact` has exactly the facts of both tables, each joined row pairing a quarterly row with an annual one |
| SecApi.JoinSeriesComplete | Backend/edgar-sec/sec_api_utils.py:100 | the merge has one row per same-name (quarterly, annual) pair, and the pair (i, j), with both rows' cells, sits at its place in quarterly-then-annual order |
| SecApi.HistoricalDataSpec | Backend/edgar-sec/sec_api_utils.py:91-108 | the combined table fails only when the fact frame does; its periods are both tables' periods in ascending order, and its rows are every same-name pair of facts, once each, in quarterly-then-annual order |
| Ratios.Divide | Backend/edgar-sec/create_dataframe.py:24 | element-wise division of two columns, present where both cells are and the divisor is not zero |
| Ratios.Subtract | Backend/edgar-sec/create_dataframe.py:32 | element-wise subtraction, present where both cells are |
| Ratios.Eval | Backend/edgar-sec/create_dataframe.py:26-45 | an operation succeeds exactly when every column it reads exists, and otherwise raises `KeyError` for a column it reads and the table lacks |
| Ratios.EvalAgree | Backend/edgar-sec/create_dataframe.py:26-45 | an operation depends only on the columns it reads |
| Ratios.AddColumns | Backend/edgar-sec/create_dataframe.py:6-12 | the loop over the dictionary computes exactly the declaration-order pass |
| Ratios.RunSplit | Backend/edgar-sec/create_dataframe.py:7 | a pass over two lists of entries is the pass over the first, then over the second from where it stopped |
| Ratios.RunKeeps | Backend/edgar-sec/create_dataframe.py:6-12 | a pass only adds to the skipped list, keeps the periods and existing columns, and leaves untouched every column that no entry names |
| Ratios.RunKeepsDistinct | Backend/edgar-sec/create_dataframe.py:6-12 | a pass over a table whose column names are distinct leaves them distinct |
| Ratios.RunSkipsOrAdds | Backend/edgar-sec/create_dataframe.py:7-11 | after a successful pass every entry was either skipped or present as a column |
| Ratios.RunAddedStays | Backend/edgar-sec/create_dataframe.py:9 | a column, once present, stays present |
| Ratios.RunFailsIff | Backend/edgar-sec/create_dataframe.py:7-11 | for entries that read only their required columns or only fact columns, a pass fails exactly when some entry, already on the starting table, has all its required columns but reads a missing one |
| Ratios.NotFaultyWhenSelfContained | Backend/edgar-sec/create_dataframe.py:8-9 | an entry that reads only its required columns never raises |
| Ratios.DependentEntry | Backend/edgar-sec/create_dataframe.py:7-9 | an entry whose only input is produced earlier is present exactly when that input is |
| Ratios.RecomputedEntry | Backend/edgar-sec/create_dataframe.py:7-9 | an entry whose inputs no earlier entry touches and whose name no later entry reuses ends up holding its operation on the starting table |
| Ratios.FillNa | Backend/edgar-sec/create_dataframe.py:20 | `fillna` keeps the present cells and fills the missing ones from the other column |
| Ratios.EffectiveRevenueCells | Backend/edgar-sec/create_dataframe.py:19-22 | the effective revenue is the deprecated revenue filled from contract revenue when the deprecated column exists, and contract revenue otherwise; it fails exactly when contract revenue is missing |
| Ratios.EvalRatio | Backend/edgar-sec/create_dataframe.py:26-45 | `df[a] / df[b]` fails with the first missing column, and is the element-wise quotient otherwise |
| Ratios.PrepareSpec | Backend/edgar-sec/create_dataframe.py:16-24 | the preparation fails exactly when contract revenue or operating income is missing, with the first of these errors; otherwise it sets the effective revenue and the operating margin and changes nothing else |
| Ratios.CalculateAfterPrepare | Backend/edgar-sec/create_dataframe.py:14-50 | the calculation is the preparation followed by the dictionary pass |
| Ratios.CalculateRatios | Backend/edgar-sec/create_dataframe.py:14-50 | the method computes exactly that calculation |
| Ratios.OnlyCashRatioReadsUnrequired | Backend/edgar-sec/create_dataframe.py:26-45 | of the twenty entries only the cash ratio reads a column, `Liabilities`, that it does not require |
| Ratios.CashRatioInputsAreFacts | Backend/edgar-sec/create_dataframe.py:33 | no entry produces the columns the cash ratio reads |
| Ratios.PreparedColumnsNotAfterOperatingMargin | Backend/edgar-sec/create_dataframe.py:24-27 | no entry produces the effective revenue, and the second entry names the operating margin while no later one does |
| Ratios.DefinitionsChecked | Backend/edgar-sec/create_dataframe.py:25-46 | every entry reads only its required columns or only fact columns |
| Ratios.PassFailsWhenFaulty | Backend/edgar-sec/create_dataframe.py:48 | the dictionary pass fails exactly when some entry is faulty on the starting table |
| Ratios.CashRatioFaultyIff | Backend/edgar-sec/create_dataframe.py:33 | the cash ratio raises exactly when cash and current liabilities exist but `Liabilities` does not |
| Ratios.PassFailsIff | Backend/edgar-sec/create_dataframe.py:25-48 | the pass fails exactly in that case |
| Ratios.CalculateFailsIff | Backend/edgar-sec/create_dataframe.py:14-50 | the calculation fails exactly when contract revenue is missing, operating income is missing, or the cash-ratio case holds |
| Ratios.DaysSalesEntry | Backend/edgar-sec/create_dataframe.py:40-41 | days sales outstanding depends only on the receivables turnover, which no later entry names |
| Ratios.DaysInventoryEntry | Backend/edgar-sec/create_dataframe.py:39-42 | days inventory outstanding depends only on the inventory turnover, which no later entry names |
| Ratios.DaysSalesFollows | Backend/edgar-sec/create_dataframe.py:40-41 | after the pass, days sales outstanding is present exactly when the receivables turnover is |
| Ratios.DaysInventoryFollows | Backend/edgar-sec/create_dataframe.py:39-42 | after the pass, days inventory outstanding is present exactly when the inventory turnover is |
| Ratios.DaysOutstandingFollowTurnover | Backend/edgar-sec/create_dataframe.py:39-42 | after the whole calculation, both days-outstanding columns follow their turnover columns |
| Ratios.CalculateKeepsFacts | Backend/edgar-sec/create_dataframe.py:14-50 | a successful calculation keeps the periods and every input column, holds the effective revenue, and leaves unchanged every column no entry names |
| Ratios.CalculateKeepsDistinct | Backend/edgar-sec/create_dataframe.py:14-50 | the whole calculation leaves distinct column names distinct |
| Ratios.PassKeeps | Backend/edgar-sec/create_dataframe.py:48 | the dictionary pass keeps the effective revenue and every column no entry names |
| Ratios.OperatingMarginEntry | Backend/edgar-sec/create_dataframe.py:27 | the second entry is the operating margin over operating income and effective revenue, and no later entry names it |
| Ratios.OperatingMarginKept | Backend/edgar-sec/create_dataframe.py:24-27 | the pass leaves the operating margin equal to operating income over effective revenue |
| Ratios.OperatingMarginRecomputed | Backend/edgar-sec/create_dataframe.py:20-27 | after a successful calculation the operating margin is operating income over the effective revenue of the input |
| Ratios.GrossMarginCase | Backend/edgar-sec/create_dataframe.py:26 | gross margin is gross profit over effective revenue in each period with both, and a period without effective revenue gets no cell |
| Ratios.QuickRatioCase | Backend/edgar-sec/create_dataframe.py:32 | the quick ratio, as written, is current assets minus inventory over current liabilities: 500, 50 and 100 give 499.5 |
| Ratios.CashRatioCase | Backend/edgar-sec/create_dataframe.py:33 | a table with only cash and current liabilities meets the cash ratio's requirement and then fails with `KeyError('Liabilities')` |
| Reports.NextBreak | Backend/edgar-sec/process_reports.py:14 | the next split point is a whitespace run after `.`, `!` or `?`, and none lies before it |
| Reports.CapitalizeAll | Backend/edgar-sec/process_reports.py:15 | every sentence is capitalised, in order |
| Reports.SplitJoinFrom | Backend/edgar-sec/process_reports.py:14-15 | splitting at sentence ends and joining the capitalised pieces with spaces equals the reference scan, which capitalises the first letter of every sentence and collapses each split run to one space |
| Reports.PrettifySpec | Backend/edgar-sec/process_reports.py:9-17 | `prettify_text` equals the reference scan over the lowered text |
| Reports.PrettifyHead | Backend/edgar-sec/process_reports.py:9-17 | a non-empty text stays non-empty and starts with its first character lowered, then raised |
| Reports.MarkerEnd | Backend/edgar-sec/process_reports.py:116 | a match of `ITEM\s*\d+[A-Z]*\.` starts with `ITEM` and ends at a dot inside the text |
| Reports.FindMarker | Backend/edgar-sec/process_reports.py:116 | the search returns the first position where the marker matches, and no match exists before it |
| Reports.FirstPage | Backend/edgar-sec/process_reports.py:70-80 | the first page in range that passes the test, with none before it |
| Reports.Scanned | Backend/edgar-sec/process_reports.py:70 | `min(max_toc_pages, len(document))` pages are scanned, or none when the bound is not positive |
| Reports.DetectTocEnd | Backend/edgar-sec/process_reports.py:59-82 | the page loop with its early `break` computes exactly the table-of-contents end |
| Reports.TocEndWithoutContents | Backend/edgar-sec/process_reports.py:67-82 | without a "Table of Contents" page the extraction starts at page 1 |
| Reports.TocEndWithContents | Backend/edgar-sec/process_reports.py:70-82 | otherwise it starts one page after the first page, from the contents page on, that mentions an item, or at page 1 when there is none |
| Reports.FindHeading | Backend/edgar-sec/process_reports.py:107 | the first position where an item marker followed by the heading matches, with none before it |
| Reports.CutEnd | Backend/edgar-sec/process_reports.py:116-117 | the section end lies between its start and the end of the text |
| Reports.CutEndLast | Backend/edgar-sec/process_reports.py:116-117 | the section runs to the end of the text exactly when no marker follows its start |
| Reports.CutEndBeforeMarker | Backend/edgar-sec/process_reports.py:116-117 | otherwise the section ends one character before the next marker |
| Reports.JoinPages | Backend/edgar-sec/process_reports.py:99-100 | the loop appends every page from the start page on, each followed by a newline |
| Reports.ExtractSection | Backend/edgar-sec/process_reports.py:84-124 | the method computes exactly the section function |
| Reports.CutSection | Backend/edgar-sec/process_reports.py:107-122 | the heading search and cut compute exactly the cut function: none when no `ITEM n.` marker followed by the heading occurs, otherwise the stripped text from the first such match to the next marker |
| Reports.CutFound | Backend/edgar-sec/process_reports.py:112-122 | a found heading always yields a non-empty cut that starts with `I` |
| Reports.SectionSpec | Backend/edgar-sec/process_reports.py:107-124 | the result is "Section not found." exactly when the heading matches nowhere, and otherwise a text starting with `I` |
| Reports.CutDropsLastCharacter | Backend/edgar-sec/process_reports.py:116-122 | as written, a section that runs straight into the next `ITEM` loses its last character |
| Reports.HeaderPages | Backend/edgar-sec/process_reports.py:46 | headers are read from the first `min(10, len(document))` pages |
| Reports.HeadersFromFirstPages | Backend/edgar-sec/process_reports.py:46-47 | pages after the tenth do not change the headers |
| Reports.ItemPrefixEnd | Backend/edgar-sec/process_reports.py:55 | a match of `^Item \d+[A-Z]?\.\s*` starts with `Item ` and is at least seven characters long |
| Reports.CleanHeaderKeeps | Backend/edgar-sec/process_reports.py:55 | an entry that does not start with `Item ` is kept as it is |
| Reports.CleanHeaderRoundTrip | Backend/edgar-sec/process_reports.py:55 | removing the prefix from `Item <n>[<letter>]. <title>` gives back the title |
| Reports.ExtractHeaders | Backend/edgar-sec/process_reports.py:41-57 | the method computes exactly the header function |
| Reports.SectionsOfSpec | Backend/edgar-sec/process_reports.py:151-154 | the section dictionary has one key per distinct header, and each key holds that header's section |
| Reports.ExtractContentWithSections | Backend/edgar-sec/process_reports.py:146-164 | the report holds the ticker, the file name and the dictionary the header loop builds |
| Trends.SeriesOfSpec | Backend/edgar-sec/save_dataframe.py:28-35 | a series holds exactly the periods with a value, each with that value; over ascending periods its dates ascend |
| Trends.FinancialsKeys | Backend/edgar-sec/save_dataframe.py:21-39 | a fact name is a key exactly when some row with that name has a non-empty series |
| Trends.FinancialsValues | Backend/edgar-sec/save_dataframe.py:21-39 | a key holds the series of the last such row |
| Trends.BuildFinancials | Backend/edgar-sec/save_dataframe.py:20-39 | the row loop computes exactly that dictionary |
| Trends.RecordsOf | Backend/edgar-sec/save_dataframe.py:58 | `to_dict(orient='records')` gives one record per row, with its fact and a cell for every period, absent where the table has none |
| Trends.FirstWith | Backend/edgar-sec/save_dataframe.py:73 | the first document with the ticker, and none before it |
| Trends.UpsertSpec | Backend/edgar-sec/save_dataframe.py:47-51 | the upsert adds a document only when none has the ticker, the first match becomes the new document, and no other document changes |
| Trends.RepeatedSavesReplace | Backend/edgar-sec/save_dataframe.py:47-51 | saving twice leaves as many documents for the ticker as saving once |
| Trends.Collection.FindOne | Backend/edgar-sec/save_dataframe.py:73 | finds a document exactly when one has the ticker |
| Trends.Collection.InsertOne | Backend/edgar-sec/save_dataframe.py:67 | appends the document |
| Trends.Collection.UpdateOneUpsert | Backend/edgar-sec/save_dataframe.py:47-51 | replaces the first match, or appends when there is none |
| Trends.SaveFinancialTrends | Backend/edgar-sec/save_dataframe.py:17-51 | upserts, under the lowered ticker, the document of the row series |
| Trends.SaveDataframeToDb | Backend/edgar-sec/save_dataframe.py:56-68 | appends, under the given ticker, the document of the row records |
| Trends.LoadCollection | Backend/edgar-sec/save_dataframe.py:71-80 | with no document for the ticker it fails with "No data found"; otherwise it fails with the unequal-lengths error exactly when the first such document holds trend series of different lengths, and returns that document's financials when it does not |
| Trends.SavedTrendsFound | Backend/edgar-sec/save_dataframe.py:43-51 | after saving trends, a lookup under the lower-cased ticker finds exactly the saved series |
| Trends.TrendsNotFoundByGivenTicker | Backend/edgar-sec/save_dataframe.py:43-48 | trends saved for a ticker with capitals are not found by that same ticker |
| Filings.RemoveDashesSpec | Backend/edgar-sec/save_reports_info.py:50 | removing dashes leaves no dash, shortens by the number of dashes, and keeps a dash-free string as it is |
| Filings.RemoveDashesIdempotent | Backend/edgar-sec/save_reports_info.py:50 | removing dashes twice is removing them once |
| Filings.AccessionFields | Backend/edgar-sec/save_reports_info.py:50 | an accession number `a-b-c` becomes `abc` |
| Filings.Zipped | Backend/edgar-sec/save_reports_info.py:47 | `zip` runs for the length of the shortest list |
| Filings.FirstOfForm | Backend/edgar-sec/save_reports_info.py:47-48 | the first position within that length with the requested form, with none before it |
| Filings.LatestFormUrl | Backend/edgar-sec/save_reports_info.py:41-54 | the loop with its early return computes exactly the URL function |
| Filings.LatestFormUrlSpec | Backend/edgar-sec/save_reports_info.py:47-54 | the result is the not-found message exactly when no zipped filing has the form |
| Filings.LatestFormUrlFirst | Backend/edgar-sec/save_reports_info.py:47-52 | otherwise it is the URL of the first filing of that form |
| Filings.UrlIsNotMessage | Backend/edgar-sec/save_reports_info.py:50-54 | a filing URL never equals the not-found message |
| Filings.FilingUrlParts | Backend/edgar-sec/save_reports_info.py:50 | the URL reads back as the archive root, the CIK, the dash-free accession number and the primary document |
| Filings.FileNameInjective | Backend/edgar-sec/save_reports_info.py:64 | for one form the file name determines the ticker, and for one ticker it determines the form |
| Filings.StoreIfAbsentSpec | Backend/edgar-sec/save_reports_info.py:73-79 | a stored file is never replaced, a new one is added under exactly its name, and nothing else changes |
| Filings.StoreTwice | Backend/edgar-sec/save_reports_info.py:73-75 | once a name is stored, a later save leaves the store unchanged |
| Filings.FileStore.SaveForm | Backend/edgar-sec/save_reports_info.py:60-82 | skips an existing file, writes a successful rendering, and writes nothing when rendering fails |
| Filings.FileStore.SavePdfToMongo | Backend/edgar-sec/save_reports_info.py:91-110 | a failed rendering raises before anything is written; otherwise it puts the file exactly when its name is new |

## Left out

- HTTP requests are not modelled: the company directory, the submissions JSON and the company facts are parameters, and so is `raise_for_status`. A `RequestException` and the "An error occurred" message of `get_latest_form_url` (lines 56-57) are not modelled.
- MongoDB and GridFS connections are not modelled. The collection and the bucket are in-memory values; `retrieve_pdf_from_mongo`, `open_document`, `write_dict_to_mongo` and `process_and_save_report` are I/O wrappers and are left out.
- PDF parsing (fitz) and rendering (weasyprint) are external. Page texts are parameters, and a rendering is an `Option` of bytes.
- The table-of-contents regex `findall` of `extract_headers` (line 50) is a parameter, `tocEntries`: its lazy `.+?` followed by a page number is not modelled. The stripping and the prefix removal that follow it are.
- Reports.ExtractSection: the generic `except Exception` branch, which returns "Error: …", is not modelled, because no modelled step raises.
- Reports.CutEnd: the next-marker search runs over `full_text[start_idx+1:]`. The model searches the whole text from `start + 1`, which finds the same match one offset later, because the pattern has no anchor and no look-behind.
- `extract_content` (lines 130-144) is left out. It builds the same dictionary as `extract_content_with_sections` plus a `file_name` key, and nothing calls it.
- Ratios.Divide: division by zero gives no cell, where pandas gives an infinity or NaN. Floating-point rounding is not modelled; values are reals.
- SecApi.CellsSpec: when several annual rows share a (fact, end) with different values, `pivot_table` averages them. The model keeps the last value. The quarterly path has already removed such duplicates.
- SecApi.JoinSeriesSpec: where both tables have a period, pandas keeps two suffixed columns (`_x`, `_y`). The model keeps one cell, and the annual value wins. The suffixed labels are strings while the other period labels are timestamps, so when the tables share some periods but not all, `sorted(combined_df.columns)` raises `TypeError`; the model returns a table there.
- A fact whose label is null gets a NaN row name; the model represents it as `None`. Timestamps become ISO strings; their formatting by `str()` and the `FormType` enum's formatting in file names are not modelled.
- Text.UpperStr: upper and lower casing, `\s` and `\d` are modelled for ASCII (and, for `\s`, Latin-1) only. Unicode case mapping, and the non-ASCII digits that Python's `\d` also matches (process_reports.py lines 50, 55, 78, 107 and 116), are out of scope.
- Tables.FirstCells: when two series share a name, the model reads the first one. That happens when two facts have the same label, which `rename` (sec_api_utils.py lines 78 and 88) then gives to both, or when the merge on `fact` (line 100) joins one quarterly row to two annual rows. pandas then returns a frame for `df[c]`, and the assignment at create_dataframe.py line 9 or 24 raises `ValueError`. The ratio engine itself never creates such a duplicate (Ratios.CalculateKeepsDistinct). On tables with distinct names the model is exact (Tables.ColumnOfDistinct).
- The CSV writes (`save_dataframe_to_csv`, `to_csv` in `load_collection_to_dataframe`), the `print` calls and the module-level example calls at the foot of each file are not modelled.
- Missing `filings`/`recent` keys in the submissions JSON read as empty lists; the keys themselves are not modelled.
- `getCompanyInfo` and `getFacts` are plain fetches and are covered by the parameters above.
- `save_company.py` and `main.py` are not part of this model.
