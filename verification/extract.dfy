/** The extract stage: choose the largest `wikitable`, skip its header, and turn
    each remaining row into a `RawRecord`, dropping rows that are too short or
    whose picture cannot be read. */
module Extraction {
  import opened Wrappers
  import opened PyStr
  import opened Cleaning
  import opened Records

  /** An `<img>` element; `src` is None when the tag has no such attribute. */
  datatype Img = Img(src: Option<string>)

  /** A `<td>` cell: its text and its first `<img>` descendant, if any. */
  datatype Cell = Cell(text: string, img: Option<Img>)

  /** A `<tr>` row, as the sequence of its `<td>` cells. */
  type Row = seq<Cell>

  /** A `wikitable` table, as the sequence of its `<tr>` rows. */
  type Table = seq<Row>

  /** The two failures that stop the extract stage. */
  datatype ExtractError = FetchFailed | NoTableFound

  /** Why a single row yields no record; the row is skipped either way. */
  datatype RowError = TooFewCells(found: nat) | ImageWithoutSrc | SrcWithoutDoubleSlash

  const MIN_CELLS: nat := 6
  const SCHEME_SEP: string := "//"

  // ---------------------------------------------------------------------------
  // Table selection
  // ---------------------------------------------------------------------------

  /** Python's `max(tables, key=len)` scanning from index `k` with the best
      candidate so far at `best`: a later table replaces it only when strictly
      longer, so the first of several longest tables is kept. */
  function LargestFrom(tables: seq<Table>, k: nat, best: nat): (r: nat)
    requires best < k <= |tables|
    requires forall j :: 0 <= j < k ==> |tables[j]| <= |tables[best]|
    requires forall j :: 0 <= j < best ==> |tables[j]| < |tables[best]|
    ensures r < |tables|
    ensures forall j :: 0 <= j < |tables| ==> |tables[j]| <= |tables[r]|
    ensures forall j :: 0 <= j < r ==> |tables[j]| < |tables[r]|
    decreases |tables| - k
  {
    if k == |tables| then best
    else if |tables[k]| > |tables[best]| then LargestFrom(tables, k + 1, k)
    else LargestFrom(tables, k + 1, best)
  }

  /** The rows of the table with the most rows; NoTableFound when the page has
      no candidate table at all. */
  function SelectTable(tables: seq<Table>): (r: Result<Table, ExtractError>)
    ensures r.Failure? <==> |tables| == 0
    ensures r.Failure? ==> r.error == NoTableFound
    ensures r.Success? ==>
              exists w :: 0 <= w < |tables| && tables[w] == r.value
                          && (forall j :: 0 <= j < |tables| ==> |tables[j]| <= |r.value|)
                          && (forall j :: 0 <= j < w ==> |tables[j]| < |r.value|)
  {
    if |tables| == 0 then Failure(NoTableFound)
    else Success(tables[LargestFrom(tables, 1, 0)])
  }

  // ---------------------------------------------------------------------------
  // Fields of one row
  // ---------------------------------------------------------------------------

  /** The cleaned text of cell `k`, or of "" when the row is shorter. */
  function CellText(tds: Row, k: nat): (r: string)
    ensures '[' !in r && '\n' !in r
    ensures k >= |tds| ==> r == ""
  {
    CleanText(if |tds| > k then tds[k].text else "")
  }

  /** Capacity text: cleaned, then every ',' and every '.' deleted. */
  function CapacityText(text: string): (r: string)
    ensures ',' !in r && '.' !in r
    ensures '[' !in r && '\n' !in r
    ensures |r| <= |text|
  {
    var c := CleanText(text);
    var noCommas := ReplaceAll(c, ",", "");
    ReplaceAllChars(c, ",", "");
    ReplaceAllChars(noCommas, ".", "");
    ReplaceAll(noCommas, ".", "")
  }

  /** Only ',' and '.' are removed from the cleaned text: every other character
      occurs in the capacity text as often as in the cleaned cell. */
  lemma CapacityKeepsOthers(text: string, ch: char)
    requires ch != ',' && ch != '.'
    ensures multiset(CapacityText(text))[ch] == multiset(CleanText(text))[ch]
  {
    var c := CleanText(text);
    var noCommas := ReplaceAll(c, ",", "");
    RemoveCharKeepsOthers(c, ',', ch);
    RemoveCharKeepsOthers(noCommas, '.', ch);
  }

  /** The picture URL of a row. A sixth cell holding an `<img>` gives
      "https://" followed by the piece of its `src` between the first and the
      second "//"; a row without one gives the placeholder. An `<img>` without
      `src`, or whose `src` has no "//", raises in the Python code (line 97). */
  function ImageUrl(tds: Row): (r: Result<string, RowError>)
    ensures |tds| <= 5 || tds[5].img.None? ==> r == Success(NO_IMAGE)
    ensures |tds| > 5 && tds[5].img.Some? ==>
              (r == Failure(ImageWithoutSrc) <==> tds[5].img.value.src.None?)
    ensures |tds| > 5 && tds[5].img.Some? && tds[5].img.value.src.Some? ==>
              (r.Failure? <==> !Contains(tds[5].img.value.src.value, SCHEME_SEP))
    ensures r.Success? ==> HTTPS <= r.value
    ensures r.Success? && |tds| > 5 && tds[5].img.Some? ==>
              && tds[5].img.value.src.Some?
              && SplitSecond(tds[5].img.value.src.value, SCHEME_SEP).Some?
              && r.value == HTTPS + SplitSecond(tds[5].img.value.src.value, SCHEME_SEP).value
  {
    if |tds| > 5 && tds[5].img.Some? then
      match tds[5].img.value.src
      case None => Failure(ImageWithoutSrc)
      case Some(src) =>
        match SplitSecond(src, SCHEME_SEP)
        case None => Failure(SrcWithoutDoubleSlash)
        case Some(host) => Success(HTTPS + host)
    else
      Success(NO_IMAGE)
  }

  /** A picture whose `src` is `p//h`, with no '/' in the scheme part `p` and
      no "//" in `h`, becomes "https://h": protocol-relative ("//h") and
      absolute ("http://h", "https://h") sources alike. */
  lemma ImageUrlFromSrc(tds: Row, p: string, h: string)
    requires |tds| > 5 && tds[5].img == Some(Img(Some(p + SCHEME_SEP + h)))
    requires '/' !in p && !Contains(h, SCHEME_SEP)
    ensures ImageUrl(tds) == Success(HTTPS + h)
  {
    var src := p + SCHEME_SEP + h;
    assert IsInfixAt(src, SCHEME_SEP, |p|);
    var f := Find(src, SCHEME_SEP).value;
    assert IsInfixAt(src, SCHEME_SEP, f);
    assert src[f + 0] == SCHEME_SEP[0] == '/';
    assert forall j :: 0 <= j < |p| ==> src[j] == p[j];
    assert f == |p|;
    assert src[|p| + |SCHEME_SEP|..] == h;
  }

  /** Only the piece up to the second "//" is kept: `p//h//x` becomes
      "https://h" whatever follows, provided `h` holds no "//" and does not end
      in '/' (which would make the second "//" start one character earlier). */
  lemma ImageUrlStopsAtSecondSep(tds: Row, p: string, h: string, x: string)
    requires |tds| > 5 && tds[5].img == Some(Img(Some(p + SCHEME_SEP + h + SCHEME_SEP + x)))
    requires '/' !in p && !Contains(h, SCHEME_SEP) && (|h| == 0 || h[|h| - 1] != '/')
    ensures ImageUrl(tds) == Success(HTTPS + h)
  {
    var rest := h + SCHEME_SEP + x;
    var src := p + SCHEME_SEP + rest;
    assert tds[5].img.value.src.value == src;
    FirstSchemeSep(p, rest);
    assert src[|p| + |SCHEME_SEP|..] == rest;
    HeadBeforeSep(h, x);
    assert SplitSecond(src, SCHEME_SEP) == Some(h);
  }

  /** With no '/' in `p`, the first "//" of `p + "//" + rest` is the one right
      after `p`. */
  lemma FirstSchemeSep(p: string, rest: string)
    requires '/' !in p
    ensures Find(p + SCHEME_SEP + rest, SCHEME_SEP) == Some(|p|)
  {
    var src := p + SCHEME_SEP + rest;
    assert IsInfixAt(src, SCHEME_SEP, |p|);
    var f := Find(src, SCHEME_SEP).value;
    assert f <= |p|;
    assert src[f] == '/' by {
      assert IsInfixAt(src, SCHEME_SEP, f);
      assert src[f + 0] == SCHEME_SEP[0] == '/';
    }
    assert forall j :: 0 <= j < |p| ==> src[j] == p[j];
    assert f == |p|;
  }

  /** `(h + "//" + x).split("//")[0]` is `h` when `h` holds no "//" and does
      not end in '/'. */
  lemma HeadBeforeSep(h: string, x: string)
    requires !Contains(h, SCHEME_SEP) && (|h| == 0 || h[|h| - 1] != '/')
    ensures SplitHead(h + SCHEME_SEP + x, SCHEME_SEP) == h
  {
    var rest := h + SCHEME_SEP + x;
    assert IsInfixAt(rest, SCHEME_SEP, |h|);
    forall j: nat | j < |h|
      ensures !IsInfixAt(rest, SCHEME_SEP, j)
    {
      if j + 1 < |h| {
        assert !IsInfixAt(h, SCHEME_SEP, j);
        assert rest[j] == h[j] && rest[j + 1] == h[j + 1];
      } else {
        assert rest[j] == h[j];
        assert SCHEME_SEP[0] == '/';
      }
    }
    assert rest[..|h|] == h;
  }

  /** A string with a single '/' holds no "//". */
  lemma SingleSlash(a: string, b: string)
    requires '/' !in a && '/' !in b
    ensures !Contains(a + "/" + b, SCHEME_SEP)
  {
    var s := a + "/" + b;
    assert SCHEME_SEP[0] == '/' && SCHEME_SEP[1] == '/';
    forall j | 0 <= j <= |s|
      ensures !IsInfixAt(s, SCHEME_SEP, j)
    {
      if j < |a| {
        assert s[j + 0] == a[j] && a[j] in a;
      } else if j == |a| {
        if j + 1 < |s| {
          assert s[j + 1] == b[0] && b[0] in b;
        }
      } else if j < |s| {
        assert s[j + 0] == b[j - |a| - 1] && b[j - |a| - 1] in b;
      }
    }
  }

  /** A protocol-relative Wikimedia-style source is given the https scheme. */
  lemma ImageUrlExample()
    ensures ImageUrl([EMPTY_CELL, EMPTY_CELL, EMPTY_CELL, EMPTY_CELL, EMPTY_CELL, SAMPLE_PICTURE])
            == Success("https://example.com/img.png")
  {
    var h := "example.com" + "/" + "img.png";
    SingleSlash("example.com", "img.png");
    assert "" + SCHEME_SEP + h == "//example.com/img.png";
    assert HTTPS + h == "https://example.com/img.png";
    ImageUrlFromSrc([EMPTY_CELL, EMPTY_CELL, EMPTY_CELL, EMPTY_CELL, EMPTY_CELL, SAMPLE_PICTURE], "", h);
  }

  const EMPTY_CELL := Cell("", None)
  const SAMPLE_PICTURE := Cell("", Some(Img(Some("//example.com/img.png"))))

  /** One row with index `i` (header = 0) as a record, or why it yields none. */
  function ParseRow(i: nat, tds: Row): (r: Result<RawRecord, RowError>)
    ensures |tds| < MIN_CELLS ==> r == Failure(TooFewCells(|tds|))
    ensures |tds| >= MIN_CELLS ==> (r.Success? <==> ImageUrl(tds).Success?)
    ensures r.Success? ==>
              && r.value.rank == i
              && r.value.stadium == CleanText(tds[0].text)
              && r.value.region == CleanText(tds[2].text)
              && r.value.country == CleanText(tds[3].text)
              && r.value.city == CleanText(tds[4].text)
              && r.value.capacity == CapacityText(tds[1].text)
              && r.value.images == ImageUrl(tds).value
              && r.value.homeTeam == (if |tds| > 6 then CleanText(tds[6].text) else "")
    ensures r.Success? ==> ',' !in r.value.capacity && '.' !in r.value.capacity
  {
    if |tds| < MIN_CELLS then
      Failure(TooFewCells(|tds|))
    else
      var images :- ImageUrl(tds);
      Success(RawRecord(
        rank := i,
        stadium := CellText(tds, 0),
        capacity := CapacityText(if |tds| > 1 then tds[1].text else ""),
        region := CellText(tds, 2),
        country := CellText(tds, 3),
        city := CellText(tds, 4),
        images := images,
        homeTeam := CellText(tds, 6)))
  }

  // ---------------------------------------------------------------------------
  // The row loop
  // ---------------------------------------------------------------------------

  /** The outcome of parsing every row of a table, in order. */
  function RowOutcomes(rows: seq<Row>): (o: seq<Result<RawRecord, RowError>>)
    ensures |o| == |rows|
    ensures forall j :: 0 <= j < |rows| ==> o[j] == ParseRow(j, rows[j])
  {
    seq(|rows|, j requires 0 <= j < |rows| => ParseRow(j, rows[j]))
  }

  /** Row outcomes whose records carry the index of their row as rank. */
  ghost predicate RankedOutcomes(o: seq<Result<RawRecord, RowError>>) {
    forall j :: 0 <= j < |o| && o[j].Success? ==> o[j].value.rank == j
  }

  /** The records among outcomes `i`, `i + 1`, ... in order: an outcome
      contributes exactly when it is a record, so failed rows leave gaps in the
      ranks. */
  function KeepParsed(o: seq<Result<RawRecord, RowError>>, i: nat): (out: seq<RawRecord>)
    requires RankedOutcomes(o)
    ensures i <= |o| ==> |out| <= |o| - i
    ensures i >= |o| ==> out == []
    ensures forall k :: 0 <= k < |out| ==> i <= out[k].rank < |o|
    ensures forall k :: 0 <= k < |out| ==> o[out[k].rank] == Success(out[k])
    decreases |o| - i
  {
    if i >= |o| then []
    else
      var rest := KeepParsed(o, i + 1);
      match o[i]
      case Success(rec) => [rec] + rest
      case Failure(_) => rest
  }

  /** Records listed in strictly increasing rank order. */
  predicate RanksIncreasing(out: seq<RawRecord>) {
    forall k, l :: 0 <= k < l < |out| ==> out[k].rank < out[l].rank
  }

  /** Every outcome from index `i` on that is a record has its rank in `out`. */
  ghost predicate KeepsAllFrom(o: seq<Result<RawRecord, RowError>>, i: nat, out: seq<RawRecord>) {
    forall j :: i <= j < |o| && o[j].Success? ==>
      exists k :: 0 <= k < |out| && out[k].rank == j
  }

  /** Kept records come in strictly increasing rank order. */
  lemma {:induction false} KeepParsedIncreasing(o: seq<Result<RawRecord, RowError>>, i: nat)
    requires RankedOutcomes(o)
    ensures RanksIncreasing(KeepParsed(o, i))
    decreases |o| - i
  {
    if i < |o| {
      KeepParsedIncreasing(o, i + 1);
      var rest := KeepParsed(o, i + 1);
      var out := KeepParsed(o, i);
      if o[i].Failure? {
        assert out == rest;
      } else {
        assert out == [o[i].value] + rest;
        assert out[0].rank == i;
        forall k, l | 0 <= k < l < |out|
          ensures out[k].rank < out[l].rank
        {
          if k > 0 {
            assert out[k] == rest[k - 1] && out[l] == rest[l - 1];
          } else {
            assert out[l] == rest[l - 1];
          }
        }
      }
    }
  }

  /** Every row that parses is kept. */
  lemma {:induction false} KeepParsedComplete(o: seq<Result<RawRecord, RowError>>, i: nat)
    requires RankedOutcomes(o)
    ensures KeepsAllFrom(o, i, KeepParsed(o, i))
    decreases |o| - i
  {
    if i < |o| {
      KeepParsedComplete(o, i + 1);
      var out := KeepParsed(o, i);
      var rest := KeepParsed(o, i + 1);
      assert out == if o[i].Success? then [o[i].value] + rest else rest;
      forall j | i <= j < |o| && o[j].Success?
        ensures exists k :: 0 <= k < |out| && out[k].rank == j
      {
        if j == i {
          assert out[0].rank == j;
        } else {
          var k :| 0 <= k < |rest| && rest[k].rank == j;
          if o[i].Success? {
            assert out[k + 1].rank == j;
          } else {
            assert out[k].rank == j;
          }
        }
      }
    }
  }

  /** `for i, row in enumerate(rows[1:], start=1)`: every row but the header,
      each inside its own `try`, so a row that fails is skipped and the loop
      goes on. */
  function ExtractRecords(rows: seq<Row>): (out: seq<RawRecord>)
    ensures |rows| > 0 ==> |out| <= |rows| - 1
    ensures forall k :: 0 <= k < |out| ==> 1 <= out[k].rank < |rows|
    ensures forall k, l :: 0 <= k < l < |out| ==> out[k].rank < out[l].rank
    ensures forall k :: 0 <= k < |out| ==> |rows[out[k].rank]| >= MIN_CELLS
    ensures forall k :: 0 <= k < |out| ==>
              ParseRow(out[k].rank, rows[out[k].rank]) == Success(out[k])
    ensures forall j :: 1 <= j < |rows| && ParseRow(j, rows[j]).Success? ==>
              exists k :: 0 <= k < |out| && out[k].rank == j
  {
    var o := RowOutcomes(rows);
    KeepParsedIncreasing(o, 1);
    KeepParsedComplete(o, 1);
    KeepParsed(o, 1)
  }

  /** Strictly increasing ranks spread out: the last is at least the first
      plus the number of records after it. */
  lemma {:induction false} RanksSpread(out: seq<RawRecord>)
    requires |out| > 0 && RanksIncreasing(out)
    ensures out[|out| - 1].rank >= out[0].rank + |out| - 1
  {
    if |out| > 1 {
      var init := out[..|out| - 1];
      assert RanksIncreasing(init) by {
        assert forall k :: 0 <= k < |init| ==> init[k] == out[k];
      }
      RanksSpread(init);
      assert out[|out| - 2].rank < out[|out| - 1].rank;
    }
  }

  /** Ranks are row indices, not a running count: a short row between the
      header and a full row leaves a gap, so the one record kept has rank 2. */
  lemma RanksSkipShortRows(rows: seq<Row>)
    requires |rows| == 3 && |rows[1]| < MIN_CELLS && |rows[2]| > MIN_CELLS
    requires rows[2][5].img.None?
    ensures |ExtractRecords(rows)| == 1 && ExtractRecords(rows)[0].rank == 2
  {
    var out := ExtractRecords(rows);
    assert ParseRow(2, rows[2]).Success?;
    assert exists k :: 0 <= k < |out| && out[k].rank == 2;
    forall k | 0 <= k < |out|
      ensures out[k].rank == 2
    {
      assert |rows[out[k].rank]| >= MIN_CELLS;
    }
    RanksSpread(out);
  }

  /** The whole extract stage. `fetched` is what the page fetch returned (None
      on a request error) and `parse` finds the `wikitable` tables of a page. */
  function ExtractStage(fetched: Option<string>, parse: string -> seq<Table>): (r: Result<seq<RawRecord>, ExtractError>)
    ensures fetched.None? || fetched.value == "" ==> r == Failure(FetchFailed)
    ensures fetched.Some? && fetched.value != "" ==>
              (r == Failure(NoTableFound) <==> |parse(fetched.value)| == 0)
    ensures fetched.Some? && fetched.value != "" && |parse(fetched.value)| > 0 ==> r.Success?
    ensures r.Success? ==>
              exists w :: 0 <= w < |parse(fetched.value)|
                          && r.value == ExtractRecords(parse(fetched.value)[w])
                          && (forall j :: 0 <= j < |parse(fetched.value)| ==>
                                |parse(fetched.value)[j]| <= |parse(fetched.value)[w]|)
                          && (forall j :: 0 <= j < w ==>
                                |parse(fetched.value)[j]| < |parse(fetched.value)[w]|)
  {
    if fetched.None? || fetched.value == "" then
      Failure(FetchFailed)
    else
      var rows :- SelectTable(parse(fetched.value));
      Success(ExtractRecords(rows))
  }
}
