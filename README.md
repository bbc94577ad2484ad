# Manga library dashboard — a Dafny model of its data logic

The dashboard keeps a list of manga entries. Each entry has a title, a
reading status, chapter counts, a rating from 0 (unrated) to 5, a genre and a
cover colour. This project models the data logic in `src/pages/Index.tsx`,
without the rendering:

- the library view's search. This is a stable filter: the lower-cased title
  must include the lower-cased query, and the status must match the
  drop-down, whose `'all'` sentinel lets every status through;
- the statistics object. It holds the number of entries, the count for
  three of the four statuses, the total of chapters read, and the mean
  rating over rated entries printed with `toFixed(1)`;
- the share of each status shown in the distribution panel;
- the CSV export. It writes a fixed seven-column header, then one row per
  entry in list order. Cells are joined by `,` and rows by `\n`, with no
  quoting or escaping;
- the seed library the dashboard starts with.

The code is pure, so the model is functions and lemmas. It has six modules:

- `Library` holds the record and its status.
- `Query` holds the filter.
- `Stats` holds the statistics.
- `CsvExport` holds the export.
- `Strings` holds the text and number formatting these need:
  - ASCII lower-casing;
  - substring search;
  - `join` and a reader-side `split`;
  - `String(n)`;
  - `toFixed(1)`.
- `MockData` holds the seed entries and what the model computes from them.

Numbers follow JavaScript where they are printed, except where JavaScript's
doubles differ from exact arithmetic: values from 1e21 up, integers above
2^53, and quotients near a half-tenth that a double rounds the other way
(see the `Strings.IntToString` and `Strings.Fixed1` lines under "## Left out"):

- `toFixed(1)` rounds the exact quotient to the nearest tenth, with halves
  rounding away from zero (`Strings.Fixed1`).
- A JavaScript `0 / 0` is the text `"NaN"` that `toFixed(1)` prints for it.
  This happens for the average rating when nothing is rated, for a status
  share when the library is empty, and for the progress cell of an entry
  with 0 of 0 chapters.
- A non-zero count over 0 chapters prints `"Infinity"` or `"-Infinity"`.
- `m.rating || 'N/A'` prints `"N/A"` exactly for a zero rating.

## Model

| member | source | states |
|---|---|---|
| Library.StatusName | src/pages/Index.tsx:13 | each status is spelled as in the literal union: a non-empty name with no `,` or newline |
| Library.ParseStatusName | src/pages/Index.tsx:13 | every status name reads back as that status, so the four names are distinct |
| Strings.LowerChar | src/pages/Index.tsx:39 | an upper-case ASCII letter becomes its lower-case letter (32 code points higher) and every other character is left alone |
| Strings.LowerCharIgnoresCase | src/pages/Index.tsx:39 | two characters lower-case alike exactly when they are equal or the same letter in the two cases |
| Strings.Lower | src/pages/Index.tsx:39 | `toLowerCase` keeps the length, leaves no upper-case letter, and returns a text without upper-case letters unchanged |
| Strings.LowerIgnoresCase | src/pages/Index.tsx:39 | two texts lower-case alike exactly when they match letter by letter, ignoring ASCII case |
| Strings.LowerIdempotent | src/pages/Index.tsx:39 | lower-casing twice is lower-casing once |
| Strings.ContainsChars | src/pages/Index.tsx:39 | every character of a needle that `includes` finds is in the text |
| Strings.ContainsEmpty | src/pages/Index.tsx:39 | every text includes the empty query |
| Strings.Contains | src/pages/Index.tsx:39 | `includes`: a found needle is no longer than the text, and every prefix of the text is found (with ContainsChars and ContainsEmpty) |
| Query.SearchIgnoresCase | src/pages/Index.tsx:39 | queries, or titles, that differ only in the case of ASCII letters give the same search verdict |
| Query.MatchesSearch | src/pages/Index.tsx:39 | the empty query passes every title, and a query longer than the title passes none (case: SearchIgnoresCase) |
| Query.MatchesStatus | src/pages/Index.tsx:40 | an entry passes exactly the filters `'all'` and its own status |
| Query.Keep | src/pages/Index.tsx:41 | an empty query with `'all'` shows every entry, and a shown entry's title is at least as long as the query |
| Query.FilterManga | src/pages/Index.tsx:38-42 | the filtered list is no longer than the list, and each entry in it comes from the list and passes both the search test and the status test |
| Query.FilterIsSubsequence | src/pages/Index.tsx:38-42 | the filtered list keeps the list's order: it is a subsequence of the list |
| Query.FilterComplete | src/pages/Index.tsx:38-42 | every entry of the list that passes both tests is in the filtered list |
| Query.FilterIsLongestPassing | src/pages/Index.tsx:38-42 | every order-preserving selection of passing entries is at most as long as the filtered list |
| Query.FilterIsLongestPassingSubsequence | src/pages/Index.tsx:38-42 | such a selection that is as long as the filtered list equals it, so the filter keeps all passing entries, in order, and nothing else |
| Query.FilterAppend | src/pages/Index.tsx:38-42 | filtering a concatenation filters each part and concatenates the results |
| Query.FilterSingleMatch | src/pages/Index.tsx:38-42 | when exactly one entry passes, the result is that entry alone |
| Query.FilterEverything | src/pages/Index.tsx:39-40 | an empty query with `'all'` shows the whole list unchanged |
| Query.FilterEmptyIffNoMatch | src/pages/Index.tsx:38-42 | the result is empty exactly when no entry passes; no match is not an error |
| Query.FilterIdempotent | src/pages/Index.tsx:38-42 | filtering the filtered list again changes nothing |
| Query.FilterStatus | src/pages/Index.tsx:40 | under one status every shown entry has that status; under `'all'` every entry that passes the search is shown |
| Query.FilterSplitsIntoTests | src/pages/Index.tsx:38-42 | filtering by query and status is filtering by the query and then by the status |
| Stats.CountStatus | src/pages/Index.tsx:46-48 | a status count is at most the number of entries |
| Stats.CountStatusIsFilterLength | src/pages/Index.tsx:46-48 | a status count is the length of the view filtered by that status with an empty query |
| Stats.StatusCountsPartition | src/pages/Index.tsx:45-48 | the four status counts add up to `totalManga` |
| Stats.SumChapters | src/pages/Index.tsx:49 | the `reduce` total of chapters read is non-negative when no count is negative (bounds: SumChaptersAtLeastEach) |
| Stats.SumChaptersAtLeastEach | src/pages/Index.tsx:49 | with no negative chapter count, the total is non-negative and at least each entry's count |
| Stats.Rated | src/pages/Index.tsx:50 | the rated entries come from the list and have a positive rating |
| Stats.RatedAppend | src/pages/Index.tsx:50 | selecting the rated entries of a concatenation selects them from each part, in order |
| Stats.RatedAll | src/pages/Index.tsx:50 | a list whose entries are all rated is kept whole |
| Stats.RatedEmptyIffNoneRated | src/pages/Index.tsx:50 | no entry is rated exactly when no rating is positive |
| Stats.RatingSum | src/pages/Index.tsx:50 | the `reduce` total of ratings over rated entries is at least their number (bounds: RatingSumAtLeast, RatingSumAtMost) |
| Stats.RatingSumAtLeast | src/pages/Index.tsx:50 | a lower bound on every rating bounds the sum by count times that bound |
| Stats.RatingSumAtMost | src/pages/Index.tsx:50 | an upper bound on every rating bounds the sum by count times that bound |
| Stats.MinRating | src/pages/Index.tsx:50 | the smallest rating occurs in the list and bounds every rating from below |
| Stats.MaxRating | src/pages/Index.tsx:50 | the largest rating occurs in the list and bounds every rating from above |
| Stats.MeanRating | src/pages/Index.tsx:50 | the exact mean is absent (0 / 0) exactly when no rating is positive, and otherwise at least 1 (bounds: MeanRatingBounds) |
| Stats.MeanRatingBounds | src/pages/Index.tsx:50 | there is no mean exactly when nothing is rated; otherwise the mean lies between the smallest and the largest positive rating |
| Stats.MeanBetween | src/pages/Index.tsx:50 | n values between lo and hi have a mean between lo and hi |
| Stats.AverageRatingText | src/pages/Index.tsx:50 | `averageRating` is `"NaN"` exactly when no rating is positive, and otherwise a `toFixed(1)` text with no minus sign (rounding: AverageRatingTextRoundsMean) |
| Stats.AverageRatingTextRoundsMean | src/pages/Index.tsx:50 | `averageRating` is `"NaN"` exactly when nothing is rated; otherwise it reads as the mean rounded to the nearest tenth |
| Stats.ShareText | src/pages/Index.tsx:290-304 | a status share prints `"NaN"` exactly for an empty library, and otherwise a one-decimal text with no minus sign (range: ShareAtMostHundred) |
| Stats.ShareAtMostHundred | src/pages/Index.tsx:290-304 | a status share reads between 0.0 and 100.0 percent; it is `"NaN"` exactly for an empty library |
| Stats.Summarize | src/pages/Index.tsx:44-51 | `totalManga` is the list length, and the three named counts are the entries that are not dropped |
| Stats.SummarizeEmpty | src/pages/Index.tsx:44-51 | an empty library gives zero counts, zero chapters and a `"NaN"` rating rather than an error |
| Strings.RoundTenthsNearest | src/pages/Index.tsx:50 | `toFixed(1)` picks the number of tenths within half a tenth of the quotient |
| Strings.RoundTenthsAtMost | src/pages/Index.tsx:290-304 | a quotient of at most w rounds to at most 10 * w tenths |
| Strings.TenthsNearReal | src/pages/Index.tsx:50 | that integer bracket means the tenths lie within 0.05 of the exact quotient |
| Strings.Fixed1 | src/pages/Index.tsx:50 | a `toFixed(1)` text is a `-` exactly for a negative quotient, then at least one digit with no leading zero unless the integer part is 0, then `.` and one digit |
| Strings.Fixed1ReadsBack | src/pages/Index.tsx:50 | a `toFixed(1)` text reads back as the quotient's magnitude rounded to tenths, with the quotient's sign |
| Strings.NatToString | src/pages/Index.tsx:68-69 | `String(n)` below 1e21 is a non-empty run of digits with no leading zero (exponent form left out) |
| Strings.IntToString | src/pages/Index.tsx:68-69 | `String(i)` below 1e21 in magnitude is a `-` exactly for a negative number, then at least one digit with no leading zero (exponent form left out) |
| Strings.ParseIntToString | src/pages/Index.tsx:68-69 | `String(i)` reads back as i |
| Strings.Join | src/pages/Index.tsx:74 | `join` of no parts is `""`; otherwise the text starts with the first part and ends with the last (with JoinSnoc, CountCharJoin, SplitJoin) |
| Strings.JoinSnoc | src/pages/Index.tsx:74 | joining one more part appends the separator and that part |
| Strings.CountCharJoin | src/pages/Index.tsx:74 | a join holds one separator per gap between parts, plus those inside the parts |
| Strings.CountCharJoinOther | src/pages/Index.tsx:74 | any other character occurs in a join exactly as often as in the parts |
| Strings.Split | src/pages/Index.tsx:74 | cutting at a separator gives at least one piece, and no piece holds the separator |
| Strings.SplitLength | src/pages/Index.tsx:74 | the number of pieces is one more than the number of separators |
| Strings.SplitJoin | src/pages/Index.tsx:74 | parts free of the separator read back from their join unchanged |
| CsvExport.RowCells | src/pages/Index.tsx:65-73 | a row has one cell per header column, beginning with the title and ending with the genre |
| CsvExport.ProgressCell | src/pages/Index.tsx:70 | the progress cell is non-empty, holds no `,` or newline, and holds a `.` exactly when the total is non-zero (`NaN` and the infinities otherwise; range: ProgressCellIsPercentage) |
| CsvExport.RatingCell | src/pages/Index.tsx:71 | the rating cell is `"N/A"` exactly for a zero rating and holds no `,` or newline (read-back: RatingCellNA) |
| CsvExport.Row | src/pages/Index.tsx:65-74 | a row starts with the title and ends with the genre (fields: RowFieldCount, RowSplitsIntoCells) |
| CsvExport.HeaderLine | src/pages/Index.tsx:64-74 | the header line holds no newline, starts with `Title` and ends with `Genre` (cells: HeaderLineCells) |
| CsvExport.Csv | src/pages/Index.tsx:64-74 | the file starts with the header line, is the header line alone for an empty library, and ends with the last entry's row (lines: CsvLines, CsvSnoc) |
| CsvExport.Rows | src/pages/Index.tsx:65-73 | there is one row per entry, and the row of an entry with no `,` in its title or genre reads back as that entry's seven cells |
| CsvExport.RatingCellNA | src/pages/Index.tsx:71 | the rating cell is `"N/A"` exactly for a zero rating; any other rating reads back as itself |
| CsvExport.ChapterCellsReadBack | src/pages/Index.tsx:68-69 | the two chapter cells read back as the entry's counts |
| CsvExport.ProgressCellIsPercentage | src/pages/Index.tsx:70 | with 0 <= read <= total and total > 0, the progress cell reads between 0.0 and 100.0 and within 0.05 of the exact percentage |
| CsvExport.GeneratedCellsClean | src/pages/Index.tsx:67-71 | the status, number, progress and rating cells hold no `,` and no newline |
| CsvExport.RowFieldCount | src/pages/Index.tsx:65-74 | a row cut at `,` has 7 fields plus one per `,` in the title or genre, so it has exactly 7 only when neither holds a `,` |
| CsvExport.RowSplitsIntoCells | src/pages/Index.tsx:65-74 | with no `,` in the title or genre, a row reads back as its seven cells |
| CsvExport.RowHasNoNewline | src/pages/Index.tsx:65-74 | a row holds a newline only when the title or the genre does |
| CsvExport.HeaderCellsClean | src/pages/Index.tsx:64 | no column name holds a `,` or a newline |
| CsvExport.HeaderLineCells | src/pages/Index.tsx:64-74 | the header line holds no newline and reads back as the seven column names |
| CsvExport.CsvEmpty | src/pages/Index.tsx:64-74 | an empty library exports the header line alone |
| CsvExport.CsvSnoc | src/pages/Index.tsx:74 | one more entry appends a newline and that entry's row, so rows follow list order |
| CsvExport.LinesHaveNoNewline | src/pages/Index.tsx:64-74 | with no newline in any title or genre, neither the header nor any row holds one |
| CsvExport.CsvLines | src/pages/Index.tsx:64-74 | with no newline in any title or genre, the file's lines are the header and then exactly one row per entry, in order |
| CsvExport.CsvNoTrailingNewline | src/pages/Index.tsx:74 | with no newline in any genre, the file is non-empty and does not end in a newline |
| MockData.Seed | src/pages/Index.tsx:21-30 | the eight seed entries, field for field (results: SeedSummary, SearchAttack, OnePieceRow) |
| MockData.SearchAttackEach | src/pages/Index.tsx:21-30 | of the seed entries, only Attack on Titan passes a search for "attack" |
| MockData.SearchAttack | src/pages/Index.tsx:38-42 | searching the seed library for "attack" shows Attack on Titan alone |
| MockData.SeedCounts | src/pages/Index.tsx:46-48 | the seed library has 3 reading, 3 completed, 2 planned and 0 dropped entries |
| MockData.SeedChapters | src/pages/Index.tsx:49 | the seed library's chapters read add up to 1881 |
| MockData.SeedRated | src/pages/Index.tsx:50 | the rated seed entries are the first six; Berserk and Vagabond are unrated |
| MockData.SeedAverage | src/pages/Index.tsx:50 | the seed library's average rating prints as "4.7" |
| MockData.SeedSummary | src/pages/Index.tsx:44-51 | the seed library's statistics are 8, 3, 3, 2, 1881 and "4.7" |
| MockData.OnePieceRow | src/pages/Index.tsx:65-74 | One Piece exports as `One Piece,reading,875,1100,79.5,5,Shonen` and reads back as these seven cells |

## Left out

- Rendering: the JSX layout, tabs, stars, badges, icons and progress bars are presentation only. The `Progress` bar of a library card (src/pages/Index.tsx:167) shows the same chapter quotient as the CSV progress cell. The distribution bars (src/pages/Index.tsx:292, 299, 306) show the same quotient as the share text.
- The JSON export calls `JSON.stringify`, a library routine that is not part of this model.
- Downloads are I/O: the `Blob`, the object URL and the link click that deliver both exports are left out, and the model stops at the text.
- The React state hooks are left out. The list, the query and the status filter become parameters.
- Strings.IntToString: prints every integer as plain digits. JavaScript's `String(n)` switches to exponent form from 1e21 on (`"1e+21"`). JavaScript numbers are also doubles, so integers above 2^53 are not exact. This affects the chapter total (`SumChapters`), the rating sum (`RatingSum`) and `100 * chaptersRead` in the progress cell. The model's integers are exact and unbounded.
- Numbers are integers. The model does not cover fractional chapter counts or ratings, or `NaN` in a record field.
- Strings.Fixed1: divides exactly and rounds the exact quotient. JavaScript first rounds `a / b` (and `* 100`) to a double, which can move a value that lies on a half-tenth. The exponent form `toFixed` uses from 1e21 on is also not modelled.
- Strings.Lower: lower-cases ASCII letters only. `toLowerCase` also maps other Unicode letters, including some that change the length.
- `coverColor` and `id` are carried in the record but no modelled operation reads them.
- The per-status filter `'dropped'` has no statistics field in the source either. Its count is still used, in Stats.StatusCountsPartition and Stats.Summarize.
