# Wikipedia stadium pipeline — a Dafny model

This project models the data logic of a three-stage Airflow pipeline,
`pipelines/wikipedia_pipeline.py`. The pipeline reads the Wikipedia list of
football stadiums by capacity, cleans and geocodes it, and writes it out as CSV.
The model covers the logic between the I/O calls:

- **Text cleaning** (`clean_text`, `Cleaning` in `clean.dfy`). The steps are
  strip, delete `&nbsp`, cut at the first `" ♦"`, cut at the first `"["`, cut at
  the first `" (formerly)"`, then delete every newline. The Python `str`
  operations these steps use (`strip`, `in`, `split(sep)[0]`,
  `split(sep)[1]`, `replace`) are modelled on `seq<char>` in `PyStr`
  (`pystr.dfy`).
- **Extraction** (`get_wikipedia_data` and the row loop of
  `extract_wikipedia_data`, `Extraction` in `extract.dfy`):
  - choose the `wikitable` with the most rows, the first one on ties;
  - skip the header row and drop rows with fewer than 6 cells;
  - build a record from each remaining row, with rank equal to the row's index
    in the table;
  - drop a row whose picture has no `src`, or whose `src` has no `"//"`,
    because the Python raises on it.
- **Transform** (`transform_wikipedia_data`, `Transformation` in
  `transform.dfy`):
  - an empty input gives `NO_DATA`;
  - one geocoder lookup by `"stadium, country"` per record;
  - picture URLs are normalised;
  - capacity is coerced to a number;
  - a record whose location repeats an earlier record's location gets one
    second lookup by `"city, country"`. The second lookup replaces the first
    only when it finds something.
- **Load** (`write_wikipedia_data`, `Loading` in `load.dfy`): the output file
  name `stadium_cleaned_<date>_<time with ':' replaced by '_'>.csv`, and the
  rule that an empty table is not written.

The records passed between stages are defined in `Records` (`records.dfy`):
`RawRecord` after extraction, `Stadium` after the transform. `Option` and
`Result` are defined in `Wrappers` (`wrappers.dfy`). Three external services
become parameters:

- the page fetch is an `Option<string>`;
- the HTML parser is a function from the page to its tables;
- the geocoder is a function `string -> Option<Coord>`.

The clock is replaced by the date and time strings it would render.

### Behaviour worth knowing

- **Cleaning is not idempotent.** `"a [b"` cleans to `"a "`, because the space
  before the citation mark survives the cut. A second pass gives `"a"`
  (`Cleaning.CleanTextNotIdempotent`).
- **The diamond rule needs the space in front.** `"45,000♦[1]"` cleans to
  `"45,000♦"`. Its capacity text is `"45000♦"`, which does not parse, so the
  capacity becomes 0 (`Transformation.CapacityWithBareDiamond`).
- **Ranks are row indices.** A record's rank is its row's index in the table,
  counting the header as 0. A dropped row leaves a gap in the ranks
  (`Extraction.RanksSkipShortRows`).
- **Six cells are enough.** Rows with fewer than 6 cells are skipped. A row of
  exactly 6 cells yields a record with an empty home team when its picture
  can be read.
- **Only later occurrences of a location are looked up again.** Duplicate
  detection keeps the first occurrence. The first record with a given
  location keeps it, and two failed lookups count as equal
  (`Transformation.FailedLookupRetriedByCity`).
- **Locations are not made unique.** Two records can end with the same
  location (`Transformation.DuplicatesCanSurvive`).

## Model

| member | source | states |
|---|---|---|
| PyStr.Strip | pipelines/wikipedia_pipeline.py:57 | `str.strip()`: the result neither starts nor ends with whitespace and is no longer than the input; input with no surrounding whitespace is returned as is |
| PyStr.StripRemovesOnlySpace | pipelines/wikipedia_pipeline.py:57 | the stripped text sits inside the input, and everything removed before and after it is whitespace |
| PyStr.Find | pipelines/wikipedia_pipeline.py:59-64 | the separator occurs at the returned index and at no earlier one; the result is None exactly when `sep in text` is false |
| PyStr.SplitHead | pipelines/wikipedia_pipeline.py:59-64 | `text.split(sep)[0]` is a prefix of the text that holds no separator and ends where the first separator starts; it is the whole text when the separator is absent |
| PyStr.SplitSecond | pipelines/wikipedia_pipeline.py:97 | `src.split("//")[1]` raises (None) exactly when `"//"` is absent; otherwise the piece starts right after the first `"//"`, has no `"//"` starting inside it, and ends at the next `"//"` or at the end of the text (so `"a//b///"` gives `"b"`) |
| PyStr.SecondPieceUnique | pipelines/wikipedia_pipeline.py:97 | the description of `split(sep)[1]` that `SplitSecond` ensures fits exactly one piece, even when the separator overlaps itself |
| PyStr.ReplaceAll | pipelines/wikipedia_pipeline.py:58 | `replace` with a replacement no longer than the pattern never lengthens the text; deleting a one-character pattern leaves none of it; an absent pattern leaves the text unchanged |
| PyStr.ReplaceAllChars | pipelines/wikipedia_pipeline.py:65 | `replace` introduces no character that is in neither the text nor the replacement |
| PyStr.ReplaceCharPointwise | pipelines/wikipedia_pipeline.py:186 | replacing one character by another keeps the length and changes exactly the positions holding that character |
| PyStr.RemoveCharKeepsOthers | pipelines/wikipedia_pipeline.py:92 | deleting `','` or `'.'` keeps the number of occurrences of every other character |
| PyStr.RemoveCharAfter | pipelines/wikipedia_pipeline.py:92 | deleting a character keeps a leading part that does not contain it and removes the first occurrence after it |
| Cleaning.CutAt | pipelines/wikipedia_pipeline.py:59-64 | the guarded `split(sep)[0]` keeps a prefix free of the separator that ends at its first occurrence, and keeps all the text when the separator is absent |
| Cleaning.CutAtFirst | pipelines/wikipedia_pipeline.py:59-64 | cutting at a separator whose first occurrence is at `k` keeps exactly the first `k` characters |
| Cleaning.CleanText | pipelines/wikipedia_pipeline.py:56-65 | the cleaned text has no `'\n'` and no `'['` and is never longer than the input |
| Cleaning.CleanTextKeepsUnmarked | pipelines/wikipedia_pipeline.py:56-65 | when the stripped input holds none of `&nbsp`, `" ♦"`, `"["`, `" (formerly)"` or a newline, cleaning returns the stripped input |
| Cleaning.PlainUnchanged | pipelines/wikipedia_pipeline.py:56-65 | plain text (defined below the table) is a fixed point of cleaning |
| Cleaning.CitationLeavesSpace | pipelines/wikipedia_pipeline.py:61-62 | for plain `a` and `b`, `a + " [" + b` cleans to `a + " "`: the space before a citation mark survives the cut |
| Cleaning.TrailingSpaceStripped | pipelines/wikipedia_pipeline.py:57 | for plain `a`, cleaning `a + " "` strips the space and gives `a` |
| Cleaning.CleanTextNotIdempotent | pipelines/wikipedia_pipeline.py:56-65 | for plain `a` and `b`, cleaning `a + " [" + b` twice gives `a`, which differs from cleaning it once |
| Cleaning.DiamondWithSpaceCut | pipelines/wikipedia_pipeline.py:59-60 | for plain `a` and `b`, `a + " ♦" + b` cleans to `a`: the footnote marker and everything after it are cut |
| Cleaning.DiamondWithoutSpaceKept | pipelines/wikipedia_pipeline.py:59-62 | for plain `a` and `b`, `a + "♦[" + b` cleans to `a + "♦"`: a diamond with no space in front is kept, and only the citation cut applies |
| Extraction.LargestFrom | pipelines/wikipedia_pipeline.py:46 | `max(key=len)` returns a table at least as long as every table and strictly longer than every earlier one |
| Extraction.SelectTable | pipelines/wikipedia_pipeline.py:42-47 | it fails with NoTableFound exactly when there is no table; otherwise it returns a longest table, and the first one on ties |
| Extraction.CellText | pipelines/wikipedia_pipeline.py:91-101 | a field is cleaned cell text with no `'['` or newline, and empty when the cell is missing |
| Extraction.CapacityText | pipelines/wikipedia_pipeline.py:92 | the capacity text holds no `','`, `'.'`, `'['` or newline and is no longer than the cell text |
| Extraction.CapacityKeepsOthers | pipelines/wikipedia_pipeline.py:92 | only `','` and `'.'` are deleted: every other character occurs in the capacity text as often as in the cleaned cell text |
| Extraction.ImageUrl | pipelines/wikipedia_pipeline.py:96-100 | with no picture, the URL is the placeholder; a picture without `src` fails; a `src` fails exactly when it has no `"//"`; otherwise the URL is `https://` followed by the piece of `src` that `split("//")[1]` gives |
| Extraction.ImageUrlStopsAtSecondSep | pipelines/wikipedia_pipeline.py:97 | `p//h//x` becomes `https://h` whatever `x` is, for `p` without `'/'` and `h` without `"//"` that does not end in `'/'` |
| Extraction.ImageUrlFromSrc | pipelines/wikipedia_pipeline.py:97 | a `src` of the form `p//h`, with no `'/'` in `p` and no `"//"` in `h`, becomes `https://h`, for protocol-relative and absolute sources alike |
| Extraction.ImageUrlExample | pipelines/wikipedia_pipeline.py:97 | `//example.com/img.png` becomes `https://example.com/img.png` |
| Extraction.ParseRow | pipelines/wikipedia_pipeline.py:84-106 | a row with fewer than 6 cells is skipped; a longer row yields a record exactly when its picture can be read; the record has rank `i`, cleaned text from cells 0-4 and 6 (home team empty without a seventh cell), and a capacity free of `','` and `'.'` |
| Extraction.KeepParsed | pipelines/wikipedia_pipeline.py:80-106 | the loop keeps only successful rows, each under its own row index, so there are no more records than rows |
| Extraction.KeepParsedIncreasing | pipelines/wikipedia_pipeline.py:80 | records come out in row order: ranks strictly increase |
| Extraction.KeepParsedComplete | pipelines/wikipedia_pipeline.py:103 | every row that parses appears among the records |
| Extraction.ExtractRecords | pipelines/wikipedia_pipeline.py:80-106 | at most `len(rows) - 1` records; ranks lie in `1..len(rows)-1` and strictly increase, so the header never yields a record; every record comes from a row of at least 6 cells; exactly the rows that parse are kept |
| Extraction.RanksSpread | pipelines/wikipedia_pipeline.py:90 | with strictly increasing ranks, the last rank is at least the first plus the number of records after it |
| Extraction.RanksSkipShortRows | pipelines/wikipedia_pipeline.py:84-90 | with a short row between the header and a full row, the one record has rank 2: ranks have gaps |
| Extraction.ExtractStage | pipelines/wikipedia_pipeline.py:73-77 | an unsuccessful or empty fetch fails; a fetched page fails with NoTableFound exactly when it has no table, and succeeds when it has one; the records are those of a longest table, the first one on ties |
| Transformation.NormaliseImage | pipelines/wikipedia_pipeline.py:150-152 | the result is never `""` or `"NO_IMAGE"`; those two become the placeholder, and every other value is kept |
| Transformation.NormaliseImageIdempotent | pipelines/wikipedia_pipeline.py:150-152 | normalising twice is normalising once |
| Transformation.ToNumeric | pipelines/wikipedia_pipeline.py:155 | a non-empty string of decimal digits coerces to its value |
| Transformation.ToNumericRejectsStrayChar | pipelines/wikipedia_pipeline.py:155 | a value with any character that is neither a digit nor whitespace coerces to 0 |
| Transformation.DecimalString | pipelines/wikipedia_pipeline.py:155 | the decimal notation of a number is a non-empty digit string without leading zeros |
| Transformation.DigitsOfDecimal | pipelines/wikipedia_pipeline.py:155 | reading back a number's decimal notation gives the number |
| Transformation.ToNumericDecimal | pipelines/wikipedia_pipeline.py:155 | the coercion is a left inverse of writing a number in decimal |
| Transformation.ToNumericTrailingSpace | pipelines/wikipedia_pipeline.py:155 | a digit string followed by a space still coerces to its value |
| Transformation.DropThousandsComma | pipelines/wikipedia_pipeline.py:92 | deleting `','` and then `'.'` from `d1,d2` followed by a tail with neither gives `d1d2` and the tail |
| Transformation.CapacityWithCitation | pipelines/wikipedia_pipeline.py:155 | a capacity cell `d1,d2 [n]` gives capacity text `d1d2 ` (line 92), which coerces to the value of `d1d2` |
| Transformation.CapacityWithBareDiamond | pipelines/wikipedia_pipeline.py:155 | a capacity cell `d1,d2♦[n]` gives capacity text `d1d2♦` (line 92), which coerces to 0 |
| Transformation.Query | pipelines/wikipedia_pipeline.py:127 | the lookup query is the place, a comma and space, then the country |
| Transformation.DuplicatedMask | pipelines/wikipedia_pipeline.py:158 | the one-pass, seen-set computation of `duplicated(keep='first')` flags exactly the entries equal to some earlier entry |
| Transformation.Transform | pipelines/wikipedia_pipeline.py:143-163 | NO_DATA exactly for empty input; otherwise one output per input, in order, with coerced capacity and normalised picture; a record whose first location is not a repeat keeps it; a repeat gets the city lookup when that finds something |
| Transformation.FailedLookupRetriedByCity | pipelines/wikipedia_pipeline.py:158-163 | after an earlier failed stadium lookup, a later record whose stadium lookup also fails ends with exactly its city lookup |
| Transformation.DuplicatesCanSurvive | pipelines/wikipedia_pipeline.py:158-163 | with a geocoder that gives the same answer for every query, every record keeps that location, so duplicates remain |
| Transformation.TransformUsesIssuedQueriesOnly | pipelines/wikipedia_pipeline.py:147-163 | the output depends on the geocoder only through the stadium queries and the city queries of repeats: there is no further retry |
| Transformation.TransformKeepsRankOrder | pipelines/wikipedia_pipeline.py:142-163 | the transformed records of a table keep strictly increasing ranks |
| Loading.SwapChar | pipelines/wikipedia_pipeline.py:186 | the time's `':'` become `'_'` position by position, and nothing else changes |
| Loading.Filename | pipelines/wikipedia_pipeline.py:184-187 | the name starts with `stadium_cleaned_`, ends with `.csv`, has the date right after the prefix followed by `'_'`, and holds no `':'` when the date has none |
| Loading.FilenameKeepsTime | pipelines/wikipedia_pipeline.py:186 | for a time without `'_'`, turning the underscores of the name's time part back into colons gives the time |
| Loading.Load | pipelines/wikipedia_pipeline.py:180-192 | an empty table is not written; otherwise the records are written unchanged to the file name under the storage directory |

A string is *plain* when it is non-empty, does not start or end with
whitespace, and contains none of the characters `&`, `♦`, `[`, `(` or a
newline (`Cleaning.Plain`). Plain text therefore holds none of the marks that
cleaning acts on. `"Emirates (Arsenal)"` is not plain: the lemmas stated for
plain text do not cover it.

## Left out

- The page fetch (`get_wikipedia_page`) is network I/O. Its outcome is an `Option<string>` parameter of `Extraction.ExtractStage`.
- BeautifulSoup parsing (`find_all('table', class_='wikitable')`, `find_all('tr')`, `find_all('td')`, `find('img')`, `.text`) is left out because the tables, rows and cells arrive already parsed. A cell holds its text and its first picture. Rows nested inside inner tables are not distinguished.
- Nominatim, `RateLimiter`, its retries and the 10-second timeout are left out. They are an external service and timing, and become the `Geocoder` function parameter: an exception and "nothing found" both map to `None`.
- Coordinates are pairs of reals compared by equality only. Float behaviour is not modelled.
- The XCom and JSON hand-off between tasks and the pandas serialisation (lines 109-110, 139-140, 165, 176-177) are orchestration plumbing and are left out. One consequence is not modelled: after a `NO_DATA` transform nothing is pushed under `rows`, so the write task would receive `None` and `json.loads` would raise before its own empty check.
- The Azure write, its credentials and the `datetime.now()` clock are left out. `Loading.Load` returns the path and rows it would write, and the date and time are string parameters.
- Logging with `print` is left out.
- Transformation.ToNumeric: models `pd.to_numeric(errors='coerce').fillna(0).astype(int)` only for a digit string with optional ASCII whitespace around it, which gives its value; everything else gives 0. Signs, decimal points, exponents, `inf`/`nan` spellings and 64-bit overflow are not modelled. The capacity text has had `','` and `'.'` removed already.
- Transformation.NormaliseImage: the `None` case of line 151 cannot arise, because a picture field is always a string in the model.
- PyStr.IsSpace follows the whitespace table of `str.isspace()` for the characters listed. Any differences between Unicode versions are not modelled.
- `DataFrame.update` (line 163) writes every column of the repeated rows back with the values those rows already have, so only the location changes. Its reindexing can also turn the integer columns `rank` and `capacity` into floats, so the CSV may show `45000.0`. This type change is not modelled: ranks and capacities stay natural numbers.
