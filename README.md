# Fashion catalog ETL core, modelled in Dafny

This project models the two stages of the simple fashion-catalog ETL pipeline that hold real logic, and proves properties about them.

- **Extraction** (`utils/extract.py`). `extract_fashion_data` turns one catalog entry into a record of seven strings, stamped with the clock. `scrape_data` walks the catalog pages from a start page and stops at the first page without content or without entries, at page 50 at the latest. It collects the records in page order, then entry order.
- **Transformation** (`utils/transform.py`). There are five field normalizers: `clean_price`, `clean_rating`, `clean_colors`, `clean_size` and `clean_gender`. `transform_data` applies them column by column. It then drops rows with an invalid title or a null required field, drops duplicate rows, and sorts newest first when the table has a Timestamp column.

Modules, one per concern:

| file | module | content |
|---|---|---|
| `wrappers.dfy` | `Wrappers` | `Option` |
| `text.dfy` | `Text` | Python's `strip` (with `str.isspace`'s whitespace set), `in`, `replace(p, '')`, `split(c)[0]`, `startswith` |
| `numerals.dfy` | `Numerals` | digit strings, `str(int)`, zero padding, and the decimal grammar that stands for `float()` |
| `catalog.dfy` | `Catalog` | the "Price Unavailable" text that extraction writes and cleaning reads back |
| `clean.dfy` | `Clean` | the five normalizers |
| `frames.dfy` | `Frames` | mask filtering, `drop_duplicates`, the subsequence relation |
| `transform.dfy` | `Transform` | rows, the pipeline and `transform_data` |
| `extract.dfy` | `Extract` | fragments, the timestamp, `extract_fashion_data`, page URLs, the page walk and `scrape_data` |
| `clean_examples.dfy`, `extract_examples.dfy` | `CleanExamples`, `ExtractExamples` | the documented examples, proved from the general lemmas |

Modelling choices:

- **Missing values.** A missing cell or element (`NaN`, `None`) is `None`.
- **Numbers.** Decimals are exact `real`s. `float()` is replaced by the grammar `sign? (digits ('.' digits?)? | '.' digits)`.
- **Parameters.** The clock, the fetcher, the entry extractor, and `pd.to_datetime` for one cell are parameters. So is whether writing the output file succeeds.
- **`transform_data`** is a method that rebinds its frame through the stages, as the source rebinds `df`. It is proved equal to the specification function `Transformed`, whose properties are proved as lemmas.
- **`scrape_data`** is a method with the source's `while` loop over pages and `for` loop over entries. The entry loop is written as the helper method `ExtractPage`. The result is proved equal to the recursive `Walk`. Ghost results record the pages fetched and the entries tried.

Where the code and its documentation differ, the model follows the code:

- **`clean_price`** accepts a `$` anywhere in the text, not only as a prefix. It deletes every `$`, not only a leading one.
- **`clean_size` and `clean_gender`** delete every occurrence of the label once the trimmed text starts with it. As a result, cleaning twice can differ from cleaning once (`Clean.CleanLabeledIdempotent` states exactly when; `CleanExamples.SizeNotIdempotent` gives an input where it does).
- **Ratings.** The extractor deletes every star from the rating, not only a trailing one.
- **Sorting.** `sort_values` is not a stable sort, so the model does not promise that equal timestamps keep their order.
- **Duplicates.** They are dropped while the timestamp is still text. The output is free of duplicates when the distinct timestamp texts of the surviving rows parse to distinct instants (`Transform.TransformedDistinct`). `Transform.DuplicatesFromTimestampText` shows two records that differ only in such texts, parsing to the same instant, coming out as two equal rows.

## Model

| member | source | states |
|---|---|---|
| Clean.CleanPrice | utils/transform.py:15-26 | It returns absence for a null, for exactly "Price Unavailable", and for any text without `$`. Otherwise, when the text with every `$` deleted and then stripped parses as decimal d, it returns d·16000 (the conversion `Rupiah`); when that text does not parse, it returns absence. |
| Clean.PriceOfAmount | utils/transform.py:19-22 | A text containing `$` whose amount (every `$` deleted, then stripped) reads as d dollars gives d·16000. |
| Clean.PriceOfStripped | utils/transform.py:19-22 | One `$` in front of a stripped amount with no `$` that reads as d dollars gives d·16000. |
| Numerals.ParseDecimal | utils/transform.py:20 | The decimal grammar standing for `float`: an accepted text is non-empty and holds only digits, `.`, and a leading sign. A plain digit string reads as its integer value. |
| Numerals.ParseFormatDollars | utils/transform.py:20 | The grammar reads the catalog notation `d.mm` (two cent digits) back as exactly d + m/100. |
| Clean.CleanRating | utils/transform.py:38-40 | It returns absence for a null, for any text containing "Invalid Rating" or "Not Rated", and for exactly "Price Unavailable". |
| Clean.RatingBeforeSlash | utils/transform.py:42-47 | For a non-sentinel text containing `/`, the result is the decimal reading of the stripped text before the first `/` (stripping first makes no difference). |
| Clean.RatingWithoutSlash | utils/transform.py:42-47 | For a non-sentinel text without `/`, the result is the decimal reading of the stripped text. |
| Clean.CleanColors | utils/transform.py:61-71 | It returns absence for a null; any number it returns is at least 0. |
| Clean.MatchAt | utils/transform.py:65 | The regex engine's attempt at one start position: on success it returns the end of the `(\d+)` group, after the start, covering only digits. |
| Clean.Search | utils/transform.py:65 | `re.search`, scanning start positions from left to right: a match it returns starts no earlier than the scan and covers only digits. |
| Clean.SearchStep | utils/transform.py:65 | One step of the scan: it stops at a position where the engine succeeds and otherwise moves to the next position. |
| Clean.SearchFound | utils/transform.py:65 | The engine succeeds at the position `re.search` returns, with the group end it returns. |
| Clean.SearchLeftmost | utils/transform.py:65 | The match returned is the leftmost: the engine fails at every earlier position of the scan. |
| Clean.SearchNone | utils/transform.py:65 | When `re.search` finds nothing, the engine fails at every position of the scan. |
| Clean.MatchAtSpec | utils/transform.py:65 | The regex `(\d+)\s*Colors?` tried at a position, with backtracking, matches exactly when a digit starts there and its maximal digit run is followed by optional whitespace and "Color". |
| Clean.ColorsOfFirstRun | utils/transform.py:65-67 | When some maximal digit run is followed by optional whitespace and "Color", the result is the value of the first such run. |
| Clean.ColorsWithoutRun | utils/transform.py:65-69 | When no maximal digit run is followed by optional whitespace and "Color", the result is absence. |
| Clean.CleanLabeled | utils/transform.py:87-92 | The result is always stripped. It is the stripped input when that does not start with the label; otherwise it is the stripped input with every occurrence of the label deleted, stripped again. |
| Clean.CleanLabeledIdempotent | utils/transform.py:87-92 | Cleaning a cleaned value again changes nothing exactly when the cleaned value does not start with the label; when it does, the second cleaning shortens it. |
| Clean.CleanSize | utils/transform.py:73-94 | Absent exactly for a null; otherwise the label clean-up with "Size:". |
| Clean.CleanGender | utils/transform.py:96-117 | Absent exactly for a null; otherwise the label clean-up with "Gender:". |
| Text.TrimLeft | utils/transform.py:42 | `lstrip()`: the result is no longer than the text and does not start with whitespace. |
| Text.TrimLeftSuffix | utils/transform.py:42 | What `lstrip()` keeps is a suffix of the text, and everything it drops is whitespace. |
| Text.TrimRight | utils/transform.py:42 | `rstrip()`: the result is a prefix of the text, everything it drops is whitespace, and it does not end with whitespace. |
| Text.Strip | utils/transform.py:42 | `strip()`: the result has no whitespace at either end, is no longer than the text, and is the text itself when that is already stripped. |
| Text.StripEdges | utils/transform.py:42 | `strip()` removes edge whitespace and nothing else: the result is a contiguous slice of the text, and every character before and after that slice is whitespace. |
| Text.StripIdempotent | utils/transform.py:42 | Stripping twice is stripping once. |
| Text.RemoveCharSpec | utils/transform.py:20 | Deleting a one-character pattern removes every copy of that character and keeps every other character in order. |
| Text.WithoutAbsent | utils/transform.py:20 | Deleting a character that does not occur leaves the text unchanged. |
| Text.RemoveAll | utils/transform.py:90 | `replace(pat, '')`, a left-to-right scan deleting non-overlapping occurrences. It never lengthens the text, leaves a text without the pattern unchanged, and shortens a text that starts with the pattern by at least the pattern's length. |
| Text.BeforeFirst | utils/transform.py:44-45 | `split(c)[0]`: a prefix of the text holding no `c`. When `c` occurs, the character right after the prefix is the first `c`; otherwise the prefix is the whole text. |
| CleanExamples.HundredText | tests/test_transform.py:22 | The catalog notation for 100 dollars and 0 cents is "100.00". |
| CleanExamples.HundredDollars | tests/test_transform.py:20-22 | "$100.00" gives 1600000. |
| CleanExamples.ZeroText | tests/test_transform.py:26 | The catalog notation for 0 dollars and 0 cents is "0.00". |
| CleanExamples.ZeroDollars | tests/test_transform.py:24-26 | "$0.00" gives 0. |
| CleanExamples.PricesAbsent | tests/test_transform.py:28-32 | "Price Unavailable" and a null give absence. |
| CleanExamples.PricesWithoutDollar | tests/test_transform.py:28-36 | "invalid" and "100.00" give absence. |
| CleanExamples.RatingOutOfFive | tests/test_transform.py:42 | "4.8 / 5" gives 4.8. |
| CleanExamples.RatingThree | tests/test_transform.py:43 | "3" gives 3.0. |
| CleanExamples.RatingPlain | tests/test_transform.py:41 | "4.8" gives 4.8. |
| CleanExamples.RatingSentinels | tests/test_transform.py:45-50 | "Invalid Rating", "Not Rated", "Price Unavailable" and a null give absence. |
| CleanExamples.ThreeColors | tests/test_transform.py:55 | "3 Colors" gives 3. |
| CleanExamples.OneColor | tests/test_transform.py:56 | "1 Color" gives 1. |
| CleanExamples.TenColors | tests/test_transform.py:57 | "10 Colors" gives 10. |
| CleanExamples.NoColorCounts | tests/test_transform.py:59-63 | "Colors", "Invalid Colors" and a null give absence. |
| CleanExamples.SizeExamples | tests/test_transform.py:66-74 | "Size: M" gives "M", "Size: XL" gives "XL", "M" gives "M", and a null gives absence. |
| CleanExamples.GenderMen | tests/test_transform.py:79 | "Gender: Men" gives "Men". |
| CleanExamples.GenderWomen | tests/test_transform.py:80 | "Gender: Women" gives "Women". |
| CleanExamples.GenderPlain | tests/test_transform.py:81-85 | "Unisex" gives "Unisex", and a null gives absence. |
| CleanExamples.SizeLeavesTag | utils/transform.py:89-90 | "Size:SiSize:ze:" cleans to "Size:": deleting one "Size:" joins the letters around it into a new one. |
| CleanExamples.SizeTagAlone | utils/transform.py:89-90 | "Size:" cleans to "". |
| CleanExamples.SizeNotIdempotent | utils/transform.py:89-90 | Cleaning "Size:SiSize:ze:" twice differs from cleaning it once, so cleaning is not idempotent in general. |
| Frames.Filter | utils/transform.py:151-155 | A boolean mask keeps exactly the rows satisfying it: every kept row satisfies it, each such row keeps its multiplicity, and the result is a subsequence of the input. |
| Frames.DropDuplicates | utils/transform.py:158 | `drop_duplicates`: no duplicates, the same set of rows, a subsequence of the input, and rows in the order of their first occurrences. |
| Frames.FilterFirstOccurrence | utils/transform.py:151-158 | First-occurrence order over the masked rows carries over to the unmasked rows, for rows the mask keeps. |
| Frames.IsSubseqTrans | utils/transform.py:151-158 | A subsequence of a subsequence is a subsequence, so the three selection steps compose. |
| Frames.DistinctPermutation | utils/transform.py:158-163 | Reordering (the sort) cannot create duplicates. |
| Transform.CleanRow | utils/transform.py:133-148 | One record cleaned column by column. The cleaned row is complete only if the record had every required cell, a price containing `$` and a rating that is no sentinel. Present Size and Gender cells stay present. |
| Transform.Cleaned | utils/transform.py:133-148 | There is one cleaned row per input record. Row by row, the title is kept as read. Price, rating, color, size and gender are the values of `clean_price`, `clean_rating`, `clean_colors`, `clean_size` and `clean_gender` on the record's cells. The timestamp is the record's text when the table has a Timestamp column; otherwise it is absent. |
| Transform.Selected | utils/transform.py:151-158 | A row survives exactly when it is in the input, has a non-null title that is not "" or "Unknown Product", and has no null among the six required fields. The survivors have no duplicates and form a subsequence of the input. If one survivor comes before another, every occurrence of the later one in the input is preceded by an occurrence of the earlier one (first-occurrence order). |
| Transform.ParseAll | utils/transform.py:162 | Coercing parse: one output row per row. Each row's timestamp is replaced by its parsed value, absent for an empty cell or unparsable text. Its title, price, rating, color, size and gender are kept, so validity and completeness are unchanged. |
| Transform.Insert | utils/transform.py:163 | Inserting into a newest-first sequence gives a newest-first sequence with one more copy of the row. |
| Transform.SortByTimestamp | utils/transform.py:163 | `sort_values('Timestamp', ascending=False)`: the result is sorted newest first with null timestamps last, and is a permutation of the input. |
| Transform.Transformed | utils/transform.py:151-163 | Every output row has a valid title and no null required field. The output is a permutation of the parsed de-duplicated rows. It is sorted newest first when there is a Timestamp column. |
| Transform.TransformData | utils/transform.py:119-178 | Success exactly when the input is readable, has all six required columns and the output can be written. On success the written table is `Transformed` of the input; on failure nothing is written. |
| Transform.TransformedPermutesSubsequence | utils/transform.py:151-163 | The output is a permutation of a subsequence of the cleaned input (timestamps parsed). |
| Transform.DedupedUnstamped | utils/transform.py:151-160 | Without a Timestamp column no de-duplicated row carries a timestamp. |
| Transform.TwoRowsSurvive | utils/transform.py:151-158 | Two different rows with valid titles and every required field survive selection both, in order. |
| Transform.TransformedKeepsOrder | utils/transform.py:160-166 | Without a Timestamp column, the output is the de-duplicated rows in input order, none with a timestamp. |
| Transform.TransformedDistinct | utils/transform.py:158-163 | The output has no two equal rows whenever, among the de-duplicated rows, any two distinct timestamp cells parse to distinct values. A missing cell counts as a cell, and it parses to NaT. |
| Transform.DuplicatesFromTimestampText | utils/transform.py:158-162 | Two records differing only in timestamp texts that parse to the same value come out as two equal rows. |
| Extract.DateText | utils/extract.py:31 | The date part `Y-MM-DD` is the year's decimal text, `-`, the two-digit month, `-`, the two-digit day. |
| Extract.TimeText | utils/extract.py:31 | The time part `HH:MM:SS` is eight characters: two-digit hour, minute and second separated by `:`. |
| Extract.Timestamp | utils/extract.py:30-31 | The timestamp is 19 characters longer than the year's decimal text. |
| Extract.TimestampDate | utils/extract.py:31 | The timestamp starts with the date part followed by a blank. |
| Extract.TimestampTime | utils/extract.py:31 | After the date and the blank come the time part, `.` and the milliseconds as three digits. |
| Extract.TimestampEnd | utils/extract.py:31 | The last four characters are `.` and the zero-padded milliseconds. |
| Extract.DateTextInjective | utils/extract.py:31 | Two valid clocks with the same date part agree on year, month and day. |
| Extract.TimeTextInjective | utils/extract.py:31 | Two valid clocks with the same time part agree on hour, minute and second. |
| Extract.TimestampMillis | utils/extract.py:31 | The timestamp ends in `.` and three digits that read back as floor(microsecond / 1000), which is below 1000. |
| Extract.TimestampInjective | utils/extract.py:30-31 | Two clocks with the same timestamp agree on every field down to the millisecond. |
| Extract.RatingText | utils/extract.py:38-40 | The rating has no `/` and no star. It is a prefix of the first paragraph with every "Rating:" and star deleted; it stops right before the first `/` of that text, and is all of it when that has no `/`. |
| Extract.RatingTextBefore | utils/extract.py:38-40 | When the unlabelled, unstarred paragraph has its first `/` at position k, the rating is its first k characters. |
| Extract.ExtractFashionData | utils/extract.py:27-62 | Absent exactly when the title element is missing or there are fewer than four paragraphs. Otherwise: the title text; the price text or "Price Unavailable"; the rating text of paragraph 0; paragraph 1 verbatim; paragraphs 2 and 3 with every "Size:" / "Gender:" deleted; the clock's timestamp. |
| Extract.PageUrl | utils/extract.py:71 | The base URL for page 1, and base + "page" + decimal(n) for every other page. |
| Extract.PageUrlInjective | utils/extract.py:71 | Different page numbers give different URLs. |
| Extract.Collect | utils/extract.py:86-93 | The records of a page's entries in entry order, one at most per entry. |
| Extract.Walk | utils/extract.py:70-96 | The records the page loop collects from a page on. There are at most as many as there are entries tried, and `Extract.WalkCollectsTried` gives the exact relation. |
| Extract.CollectAppend | utils/extract.py:86-93 | Collecting records distributes over concatenating entry lists. |
| Extract.CollectSkips | utils/extract.py:87-93 | An entry whose extraction gives nothing or raises contributes nothing, and the entries around it are still collected. |
| Extract.CollectKeeps | utils/extract.py:88-90 | An entry whose extraction gives a record contributes exactly that record, in place. |
| Extract.ExtractPage | utils/extract.py:86-93 | The entry loop appends the records of the page, in entry order, skipping entries without one. |
| Extract.VisitedPagesConsecutive | utils/extract.py:67-96 | The pages fetched are consecutive from the start page and never above 50. |
| Extract.VisitedPagesContinue | utils/extract.py:74-96 | Every page fetched except the last has content with entries. |
| Extract.VisitedPagesStop | utils/extract.py:70-84 | The last page fetched is page 50 or a page without content or entries. |
| Extract.VisitedPagesSome | utils/extract.py:70 | Some page is fetched exactly when the start page is at most 50. |
| Extract.WalkCollectsTried | utils/extract.py:70-102 | The records returned are what the tried entries yield, in the order they were tried. |
| Extract.ScrapeData | utils/extract.py:64-102 | It returns the records of the walk from the start page, with the pages fetched and the entries tried. It returns nothing and fetches nothing when the start page is above 50. |
| Extract.TwoFullPages | tests/test_extract.py:222-247 | Two pages of two entries and nothing on page 3 give three fetches, four extractions and four records in order. |
| ExtractExamples.RatingWithStar | tests/test_extract.py:82-105 | "Rating:4.5/5⭐" gives the rating "4.5". |
| ExtractExamples.SizeKeepsBlank | tests/test_extract.py:84-107 | "Size: M" gives " M" (no trimming). |
| ExtractExamples.HalfSecond | tests/test_extract.py:97-109 | Microsecond 500000 gives a timestamp ending in ".500". |

## Left out

- `fetching_content` (utils/extract.py:14-25): the HTTP session and `raise_for_status` are transport, so the fetcher is a parameter mapping a URL to `None` (falsy content) or the page's entries. The model does not cover `session.get` errors that propagate out of `scrape_data`.
- HTML parsing with BeautifulSoup (utils/extract.py:79-80, 33-49): the parser is a foreign library. An entry is abstracted as its title text, its price text and its paragraph texts.
- `time.sleep(delay)` and every `print`: they are side effects with no effect on the results.
- `datetime.now()`: the clock is read outside the model and passed in as a value.
- Extract.Timestamp: the year is written as `str(year)`, the way glibc's `%Y` does. Platforms that pad years below 1000 to four digits are not modelled.
- Floating point: `float()`'s acceptance of `inf`, `nan`, exponents, underscores and Unicode digits is not modelled, and neither is the rounding of `* 16000`. The model uses an exact decimal grammar instead.
- Clean.CleanColors: `\d` and `int()` also accept non-ASCII digits; the model accepts only `0`-`9`.
- `astype(pd.Int64Dtype())` (utils/transform.py:142): a color count beyond 64 bits, which would raise, is not modelled.
- `pd.to_datetime` (utils/transform.py:162): it is the `parse` parameter, from a timestamp text to an optional integer instant.
- The CSV reader's type inference and the writer: reading is the `Table` value, and writing is the `canWrite` flag (utils/transform.py:130,166). Columns other than the seven known ones are not modelled.
- Transform.SortByTimestamp: no stability is promised, because pandas' default sort is not stable. Any permutation that is sorted newest first is a faithful outcome.
- Mixed-type cells (a price cell the CSV reader turned into a number, for instance) are not modelled: every cell is text or missing.
- utils/load.py and main.py are not part of this model.
