# Duplicate-order review, modelled in Dafny

The "review duplicates" page of the order tool (`app.py`) takes an uploaded order
sheet and looks for phone numbers shared by several orders. This project models
that page without its user interface. The model has two parts.

**Finding the columns.** The page scans the column headers left to right.
- A header is the **order-code column** if its lower-cased text contains `كود`
  ("code"), or contains both `رقم` ("number") and `عشوائي` ("random").
- Otherwise, it is the **phone column** if it contains `موبايل`, `تليفون` or `هاتف`.
- A later match overwrites an earlier one.
- If either column is missing, the page stops and lists the headers it saw,
  joined with `", "`.

**Finding shared phones.** Once both columns are found, the page does the following:
1. It projects every row to an (order code, phone) pair.
2. It drops rows in which either cell is missing.
3. It strips whitespace from both cells.
4. It collapses repeated pairs.
5. It counts the rows per phone. A phone seen in two or more rows is *shared*.
6. If no phone is shared, the page says so.
7. Otherwise, it builds the **report**: the rows with a shared phone, sorted by phone, each annotated with the number of rows for its phone.
8. It also builds the **summary**: one row per shared phone, with its count and its codes joined by `", "`, largest count first.
9. It shows the number of shared phones and the number of report rows.

Modules:
- `Wrappers`: `Option`, which stands for a missing cell and for Python's `None`.
- `Text`: the Python string operations used:
  - `str.strip()` over the `str.isspace()` set;
  - substring tests;
  - `str.lower()`;
  - string order;
  - `", ".join` and its inverse.
- `Seqs`: distinctness, and pandas' `drop_duplicates()` as `Dedup`.
- `Headers`: the header tests, and the header loop. The loop appears twice:
  - as the imperative method `ScanHeaders`;
  - as the left fold `DetectColumns` that specifies it.
- `Duplicates`: each table transform as a function on sequences, with lemmas relating the report and the summary to the de-duplicated table.
- `Review`: the three outcomes of the page and lemmas on which one is reached.

The page stops when either column is missing (`app.py:66`);
`Review.ColumnsNotFoundExactly` states this.

## Model

| member | source | states |
|---|---|---|
| Headers.IsCodeHeader | app.py:60-61 | The order-code test on the lower-cased header. A header that passes holds a keyword, so it is at least as long as `كود`. `Headers.HeaderTestsIgnoreCase` states the test on the original text. |
| Headers.IsPhoneHeader | app.py:60-63 | The phone test on the lower-cased header. A header that passes is at least as long as `هاتف`, the shortest phone keyword. |
| Headers.ScanStep | app.py:59-64 | One pass of the loop body. A header passing the order-code test moves only the code column to its position. A header taken as the phone column (`elif`) moves only the phone column. Any other header changes nothing. |
| Headers.DetectColumns | app.py:56-64 | A column found is a position within the header list whose header passes that column's test. `Headers.CodeColumnIsLastMatch` and `Headers.PhoneColumnIsLastMatch` add that it is the last such position. |
| Headers.ScanHeaders | app.py:56-64 | The loop ends with exactly the column positions of the left fold `DetectColumns` over the headers. |
| Headers.CodeColumnIsLastMatch | app.py:59-62 | The code column is the last header passing the order-code test. It is `None` exactly when no header passes. |
| Headers.PhoneColumnIsLastMatch | app.py:59-64 | The phone column is the last header that passes the phone test and fails the order-code test (`elif`). It is `None` exactly when no such header exists. |
| Headers.HeaderTestsIgnoreCase | app.py:60-63 | Lower-casing plays no part: a header passes each test exactly when its original text contains the Arabic keywords, with `and` binding tighter than `or`. |
| Headers.DetectedColumnsDiffer | app.py:61-66 | The two columns found are different columns within the header list. Both headers are non-empty, so the truth test `code_col and phone_col` means "both found". |
| Review.ReviewSheet | app.py:56-125 | The duplicate search is reached only when some header passes the order-code test and some header is taken as the phone column. `Review.ColumnsNotFoundExactly` states the converse too. |
| Review.ColumnsNotFoundExactly | app.py:66 | The page stops on the missing-columns error exactly when no header passes the code test, or no header is taken as the phone column. |
| Review.ColumnListing | app.py:123-125 | The header list shown with the error splits back into the headers, when no header contains `", "`. |
| Text.Lower | app.py:60 | Lower-casing keeps the length, leaves no upper-case ASCII letter, and changes no character other than an upper-case ASCII letter. |
| Text.Trim | app.py:70-71 | The stripped cell has no whitespace at either end. It is what remains of the cell after cutting whitespace at both ends. |
| Text.TrimUnique | app.py:70-71 | Any string with both properties of `Trim`'s contract equals `Trim` of the cell: the contract determines `str.strip()`. |
| Text.TrimmedUnchanged | app.py:70-71 | A cell with no whitespace at either end is left as it is. |
| Text.TrimIdempotent | app.py:70-71 | Stripping twice is the same as stripping once. |
| Text.AllSpaceTrimsToEmpty | app.py:70-71 | A cell of only whitespace strips to the empty string. |
| Text.ContainsAt | app.py:61-63 | The recursive substring test used for `in` holds exactly when the keyword occurs at some position of the header. |
| Text.Contains | app.py:61-63 | A header containing a keyword is at least as long as the keyword. `Text.ContainsAt` shows the test is Python's `in`. |
| Text.LowerKeepsCaselessWords | app.py:60 | Lower-casing the header does not change whether it contains a word without ASCII letters. |
| Text.LexLe | app.py:83 | The order the report is sorted by puts a prefix no later than any string it begins. `Text.LexLeTotal`, `Text.LexLeTransitive` and `Text.LexLeAntisymmetric` make it a total order. |
| Text.LexLeTotal | app.py:83 | Any two phones are comparable in the order the report is sorted by. |
| Text.LexLeTransitive | app.py:83 | That order is transitive. |
| Text.LexLeAntisymmetric | app.py:83 | Two phones that each sort no later than the other are equal. |
| Text.Join | app.py:114 | `", ".join`, used for a summary row's codes and for the header listing at `app.py:125`. The joined text begins with the first item and ends with the last. `Text.SplitJoin` shows the items can be recovered. |
| Text.SplitJoin | app.py:114 | Splitting the joined codes at `", "` gives the codes back, when no code contains `", "`. |
| Seqs.Dedup | app.py:74 | The collapsed table has no repeated pair, and every pair of the table is in it and vice versa. |
| Seqs.DedupFirstOrder | app.py:74 | `keep='first'`: the collapsed table lists the pairs in the order of their first occurrences. |
| Review.WorkingSet | app.py:74 | After `drop_duplicates()`, no pair occurs twice, and a pair is present exactly when it was present in the cleaned table. |
| Duplicates.Project | app.py:68 | One pair per sheet row, holding the row's cells in the two columns found. A cell past the end of a short row is missing. |
| Duplicates.DropMissing | app.py:69 | A row survives `dropna`, as often as it occurred, exactly when both of its cells are present. |
| Duplicates.StripAll | app.py:70-71 | Stripping keeps every row in place. It leaves both cells of each row with no whitespace at either end, and cut only from the ends of the original cells. |
| Duplicates.StripAllTrimmed | app.py:70-71 | Stripping rows whose cells are already stripped changes nothing. |
| Duplicates.StripAllIdempotent | app.py:70-71 | Stripping all cells twice is the same as stripping them once. |
| Duplicates.Clean | app.py:68-71 | No cell of the cleaned table has whitespace at either end. `Duplicates.CleanRows` states which pairs it holds. |
| Duplicates.CleanRowOrigin | app.py:68-71 | Every cleaned row is the stripped version of a raw row with both cells present. |
| Duplicates.CompleteRowKept | app.py:68-71 | Every raw row with both cells present yields its stripped version in the cleaned table. |
| Duplicates.CleanRows | app.py:68-71 | A pair is in the cleaned table exactly when it is the stripped version of some raw row with both cells present. |
| Duplicates.BlankCellKept | app.py:69-71 | Missing rows are dropped before stripping, so a whitespace-only cell survives as the empty string. |
| Duplicates.PhoneCount | app.py:77 | The count for a phone is at most the number of rows. It is positive exactly when some row has that phone. |
| Duplicates.PhoneCountAppend | app.py:77 | Counts over two tables placed end to end add up. |
| Duplicates.PhoneCountPermutation | app.py:77 | Counts do not depend on the order of the rows. |
| Duplicates.TwoRowsWithPhone | app.py:77-78 | A phone counted at least twice is carried by two different row positions. |
| Duplicates.DuplicatedPhones | app.py:77-78 | A phone is in the shared list exactly when it is counted in two or more rows. |
| Duplicates.DuplicatedPhoneHasTwoCodes | app.py:74-78 | Once repeated pairs are collapsed, a shared phone belongs to two different order codes. |
| Duplicates.SelectPhones | app.py:82 | `isin` keeps every row whose phone is listed, as often as it occurred, and no other row. Counts are kept for listed phones and are zero for the rest. |
| Duplicates.InsertByPhone | app.py:83 | Inserting a row into a table sorted by phone yields a sorted table with that row added. |
| Duplicates.SortByPhone | app.py:83 | `sort_values(phone)` returns the same rows (a permutation), in nondecreasing phone order. |
| Duplicates.Annotate | app.py:86 | The count column adds one count per row, and each count is between 1 and the number of rows. `Duplicates.ReportCounts` pins the count down. |
| Duplicates.PairsOfAnnotate | app.py:86 | Adding the count column leaves the code and phone columns unchanged. |
| Duplicates.Report | app.py:82-86 | The report is never longer than the de-duplicated table. `Duplicates.ReportRows` and `Duplicates.ReportCounts` state what it holds. |
| Duplicates.ReportRows | app.py:82-83 | The report holds each de-duplicated row whose phone is shared, exactly once, and no other row, sorted by phone. |
| Duplicates.ReportPair | app.py:82-86 | A pair is in the report exactly when it is in the de-duplicated table and its phone is shared. |
| Duplicates.ReportCountAt | app.py:86 | A single report row's count is its phone's count in the de-duplicated table, and at least 2. |
| Duplicates.ReportCounts | app.py:86 | Each report row's count equals the number of report rows with its phone. It also equals the number of de-duplicated rows with that phone, so it is at least 2. |
| Duplicates.ReportSize | app.py:80-89 | When some phone is shared, the report has at least two rows. |
| Duplicates.CodesOf | app.py:114 | A phone's group has as many codes as rows with that phone. A code is in it exactly when it is paired with the phone. |
| Duplicates.GroupRow | app.py:114 | A group's summary row is about its phone and counts the rows with that phone. |
| Duplicates.GroupRows | app.py:114 | The grouped table has one row per listed phone, in the listed order. |
| Duplicates.GroupRowsAt | app.py:114 | The grouped table has one row per listed phone, at the same position. |
| Duplicates.SumCountsSnoc | app.py:114 | One more row adds one to the total count over distinct phones that include its phone. Otherwise the total is unchanged. |
| Duplicates.SumCountsCover | app.py:114 | Grouping over distinct phones that cover every row counts every row exactly once. |
| Duplicates.InsertByCount | app.py:116 | Inserting a summary row into a table sorted by count yields a sorted table with that row added, and its count added to the total. |
| Duplicates.SortByCountDesc | app.py:116 | `sort_values(count, ascending=False)` returns the same rows (a permutation), largest count first, with the same total. |
| Duplicates.Summarize | app.py:114-116 | The summary is sorted by count, non-increasing. Its counts add up to the number of report rows. |
| Duplicates.SummaryRowIsGroup | app.py:114-115 | Every summary row is the count-and-join group of a phone that occurs in the report. |
| Duplicates.SummaryCoversPhones | app.py:114 | Every phone of the report has a summary row. |
| Duplicates.SummaryPhonesDistinct | app.py:114 | No phone has two summary rows. |
| Duplicates.SharedPhoneReported | app.py:78-83 | Every shared phone occurs in the report. |
| Duplicates.SharedPhoneSummarized | app.py:78-114 | Every shared phone has a summary row. |
| Duplicates.SummarizedPhoneShared | app.py:78-114 | Every summary row is about a shared phone. |
| Duplicates.SummaryPhones | app.py:114-116 | The summary has one row for each shared phone and for no other phone. |
| Duplicates.SummarySize | app.py:88-114 | The summary has as many rows as there are shared phones. |
| Duplicates.SummaryRowCount | app.py:114-115 | The summary row at a position is the count-and-join group of its phone, and its count is the number of de-duplicated rows with that phone. |
| Duplicates.SummaryRowCodes | app.py:114-115 | The codes grouped under a summary row's phone are exactly those paired with it in the de-duplicated table. |
| Duplicates.SummaryRowAt | app.py:114-115 | For the summary row at a position: its count is the number of its codes and of de-duplicated rows with its phone, its code text is those codes joined with `", "`, and the codes are exactly those paired with the phone. |
| Duplicates.SummaryRows | app.py:114-116 | Each summary row's count is the number of its phone's codes, which is that phone's count in the de-duplicated table. Its code text is those codes joined with `", "`. The codes are exactly those paired with the phone. |
| Review.Search | app.py:77-116 | The duplicate search never ends on the missing-columns error. When phones are shared, it shows at least one shared phone and at least two report rows. |
| Review.FindDuplicates | app.py:68-116 | From the two projected columns, the page says "no duplicates" exactly when no phone occurs twice among the distinct cleaned pairs, and it never ends on the missing-columns error. |
| Review.NoDuplicatesExactly | app.py:80 | The "no duplicates" outcome is reached exactly when no phone occurs in two rows of the de-duplicated table. |
| Review.DuplicatesFoundCounts | app.py:88-89 | When phones are shared, the number of shared phones shown is the number of summary rows, which is at least 1. The number of duplicated codes shown is the number of report rows. That number is the total of the summary counts, and at least twice the number of shared phones. |

## Left out

- Page setup, widgets, messages and table display are not modelled. The model produces which of the three outcomes is reached, and the values the page shows with it.
- The archival upload to cloud storage is not modelled: it is a network call into a foreign library.
- Reading the sheet and writing the report file are not modelled. The input is taken as an already-parsed header list plus rows of optional strings. A row shorter than the header list is read as missing in the remaining cells.
- The dated file name and the download button are not modelled, because they depend on the clock, the time zone and the interface.
- Headers are taken as text. `pandas.read_excel` keeps a numeric header cell as a number. The loop tests `str(col)`, which is the text the model uses. The error listing at `app.py:125` joins the labels themselves, so on a sheet with a non-text header and a missing column the source raises `TypeError`. The model shows the listing instead.
- Columns are identified by position rather than by label. The sheet reader makes labels unique, so the two are the same.
- `Text.Lower` lower-cases ASCII letters only, not the full Unicode case mapping. The header keywords are Arabic, which has no case, and `Headers.HeaderTestsIgnoreCase` shows the tests do not depend on lower-casing.
- Duplicates.SortByPhone: pandas' default sort is not guaranteed to be stable. The model uses a stable insertion sort but states only what any sort gives: a permutation in nondecreasing phone order. The order of rows sharing a phone, and hence the order of codes inside a summary row's text, is the model's choice, not a promise of the source.
- Duplicates.SortByCountDesc: likewise, only the permutation and the non-increasing count order are stated. The order among phones with equal counts is not.
- Duplicates.Summarize: before the count sort, groups are formed in ascending phone order, which matches pandas' default key order for grouping. Only the properties after the count sort are stated.
- No concrete worked run is included. The lemmas above state the same facts for every input.
