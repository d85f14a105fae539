/** The transform stage: attach a location to every record, normalise the
    picture URL, coerce capacity to a number and give records whose location
    repeats an earlier one a second lookup by city
    (pipelines/wikipedia_pipeline.py, lines 138-167). The geocoder is a
    parameter: a function from a query string to an optional coordinate. */
module Transformation {
  import opened Wrappers
  import opened PyStr
  import opened Records
  import opened Cleaning
  import opened Extraction

  /** The two sentinels the stage replaces by the placeholder image. */
  const NO_IMAGE_MARK: string := "NO_IMAGE"

  datatype TransformResult = NoData | Transformed(rows: seq<Stadium>)

  // ---------------------------------------------------------------------------
  // Pictures
  // ---------------------------------------------------------------------------

  /** The picture column: the sentinel "NO_IMAGE" and the empty string become
      the placeholder URL, anything else is kept. */
  function NormaliseImage(s: string): (r: string)
    ensures r != "" && r != NO_IMAGE_MARK
    ensures s != "" && s != NO_IMAGE_MARK ==> r == s
    ensures s == "" || s == NO_IMAGE_MARK ==> r == NO_IMAGE
  {
    if s == NO_IMAGE_MARK || s == "" then
      assert NO_IMAGE[0] == 'h' != NO_IMAGE_MARK[0];
      NO_IMAGE
    else s
  }

  /** Normalising twice changes nothing more. */
  lemma NormaliseImageIdempotent(s: string)
    ensures NormaliseImage(NormaliseImage(s)) == NormaliseImage(s)
  {
  }

  // ---------------------------------------------------------------------------
  // Capacity
  // ---------------------------------------------------------------------------

  /** The characters the numeric parser skips around a number. */
  predicate AsciiSpace(c: char) {
    c == ' ' || c == '\t' || c == '\n' || c == '\U{B}' || c == '\U{C}' || c == '\r'
  }

  predicate IsDigit(c: char) {
    '0' <= c <= '9'
  }

  predicate AllDigits(s: string) {
    forall k :: 0 <= k < |s| ==> IsDigit(s[k])
  }

  function DigitValue(c: char): (d: nat)
    requires IsDigit(c)
    ensures d < 10
  {
    (c as int - '0' as int) as nat
  }

  function DigitChar(d: nat): (c: char)
    requires d < 10
    ensures IsDigit(c) && DigitValue(c) == d
  {
    ('0' as int + d) as char
  }

  /** The value of a string of decimal digits, most significant first. */
  function DigitsValue(s: string): nat
    requires AllDigits(s)
  {
    if |s| == 0 then 0 else DigitsValue(s[..|s| - 1]) * 10 + DigitValue(s[|s| - 1])
  }

  /** Drops ASCII whitespace from the front. */
  function DropLeadingSpace(s: string): (r: string)
    ensures |r| <= |s|
    ensures |r| > 0 ==> !AsciiSpace(r[0])
  {
    if |s| > 0 && AsciiSpace(s[0]) then DropLeadingSpace(s[1..]) else s
  }

  /** Drops ASCII whitespace from the back. */
  function DropTrailingSpace(s: string): (r: string)
    ensures |r| <= |s|
  {
    if |s| > 0 && AsciiSpace(s[|s| - 1]) then DropTrailingSpace(s[..|s| - 1]) else s
  }

  /** Trimming keeps every character that is not whitespace. */
  lemma {:induction false} TrimKeepsSolid(s: string, c: char)
    requires c in s && !AsciiSpace(c)
    ensures c in DropLeadingSpace(s) && c in DropTrailingSpace(s)
    decreases |s|
  {
    if |s| > 0 && AsciiSpace(s[0]) {
      assert c in s[1..];
      TrimKeepsSolid(s[1..], c);
    }
    if |s| > 0 && AsciiSpace(s[|s| - 1]) {
      assert c in s[..|s| - 1];
      TrimKeepsSolid(s[..|s| - 1], c);
    }
  }

  /** The numeric coercion of the capacity column, with unparsable values
      filled with 0: a decimal integer, possibly surrounded by ASCII
      whitespace, gives its value and anything else gives 0. */
  function ToNumeric(s: string): (r: nat)
    ensures |s| > 0 && AllDigits(s) ==> r == DigitsValue(s)
  {
    var t := DropLeadingSpace(DropTrailingSpace(s));
    if |t| > 0 && AllDigits(t) then DigitsValue(t) else 0
  }

  /** A character that is neither a digit nor whitespace, anywhere in the
      value, makes it unparsable: it is coerced to 0. */
  lemma ToNumericRejectsStrayChar(s: string, k: nat)
    requires k < |s| && !IsDigit(s[k]) && !AsciiSpace(s[k])
    ensures ToNumeric(s) == 0
  {
    TrimKeepsSolid(s, s[k]);
    TrimKeepsSolid(DropTrailingSpace(s), s[k]);
  }

  /** The decimal notation of `n`, without leading zeros. */
  function DecimalString(n: nat): (s: string)
    ensures |s| > 0 && AllDigits(s)
    ensures |s| > 1 ==> s[0] != '0'
  {
    if n < 10 then [DigitChar(n)] else DecimalString(n / 10) + [DigitChar(n % 10)]
  }

  /** Reading back a number's decimal notation gives the number. */
  lemma {:induction false} DigitsOfDecimal(n: nat)
    ensures DigitsValue(DecimalString(n)) == n
  {
    var s := DecimalString(n);
    if n >= 10 {
      DigitsOfDecimal(n / 10);
      assert s[..|s| - 1] == DecimalString(n / 10);
    }
  }

  /** Capacity coerced from a number's notation is that number. */
  lemma ToNumericDecimal(n: nat)
    ensures ToNumeric(DecimalString(n)) == n
  {
    DigitsOfDecimal(n);
  }

  /** A trailing space, as cutting a citation leaves behind, does not stop
      the coercion. */
  lemma ToNumericTrailingSpace(s: string)
    requires |s| > 0 && AllDigits(s)
    ensures ToNumeric(s + " ") == DigitsValue(s)
  {
    var u := s + " ";
    assert u[..|u| - 1] == s;
    assert DropTrailingSpace(u) == DropTrailingSpace(s);
  }

  /** Digit groups are plain text for cleaning. */
  lemma DigitGroupsPlain(d1: string, d2: string)
    requires |d1| > 0 && |d2| > 0 && AllDigits(d1) && AllDigits(d2)
    ensures Plain(d1 + "," + d2)
  {
    var s := d1 + "," + d2;
    assert forall k :: 0 <= k < |s| ==> IsDigit(s[k]) || s[k] == ',';
  }

  /** A digit string holds no character that is not a digit. */
  lemma DigitsExclude(d: string, c: char)
    requires AllDigits(d) && !IsDigit(c)
    ensures c !in d
  {
    forall k | 0 <= k < |d|
      ensures d[k] != c
    {
      assert IsDigit(d[k]);
    }
  }

  /** Deleting a character that does not occur changes nothing. */
  lemma RemoveAbsentChar(s: string, c: char)
    requires c !in s
    ensures ReplaceAll(s, [c], "") == s
  {
    ContainsChar(s, c);
  }

  /** Removing the thousands comma from "d1,d2" followed by `tail`. */
  lemma DropThousandsComma(d1: string, d2: string, tail: string)
    requires AllDigits(d1) && AllDigits(d2) && ',' !in tail && '.' !in tail
    ensures ReplaceAll(ReplaceAll(d1 + "," + d2 + tail, ",", ""), ".", "") == d1 + d2 + tail
  {
    var rest := d2 + tail;
    var all := d1 + d2 + tail;
    assert ReplaceAll(d1 + "," + d2 + tail, ",", "") == all by {
      DigitsExclude(d1, ',');
      DigitsExclude(d2, ',');
      assert d1 + "," + d2 + tail == d1 + [','] + rest;
      RemoveCharAfter(d1, ',', rest);
      RemoveAbsentChar(rest, ',');
      assert d1 + rest == all;
    }
    assert ReplaceAll(all, ".", "") == all by {
      DigitsExclude(d1, '.');
      DigitsExclude(d2, '.');
      RemoveAbsentChar(all, '.');
    }
  }

  /** A capacity such as "45,000 [1]": the citation is cut, leaving a trailing
      space, the comma is dropped, and the coercion still reads the number. */
  lemma CapacityWithCitation(d1: string, d2: string, note: string)
    requires |d1| > 0 && |d2| > 0 && AllDigits(d1) && AllDigits(d2) && Plain(note)
    ensures CapacityText(d1 + "," + d2 + " [" + note) == d1 + d2 + " "
    ensures ToNumeric(CapacityText(d1 + "," + d2 + " [" + note)) == DigitsValue(d1 + d2)
  {
    DigitGroupsPlain(d1, d2);
    CitationLeavesSpace(d1 + "," + d2, note);
    assert (d1 + "," + d2) + " " == d1 + "," + d2 + " ";
    DropThousandsComma(d1, d2, " ");
    assert AllDigits(d1 + d2) by {
      assert forall k :: 0 <= k < |d1 + d2| ==> (d1 + d2)[k] == if k < |d1| then d1[k] else d2[k - |d1|];
    }
    ToNumericTrailingSpace(d1 + d2);
  }

  /** A capacity such as "45,000\u2666[1]": a footnote diamond without a space
      in front survives cleaning, so the capacity text ends in the diamond, does
      not parse, and is coerced to 0. */
  lemma CapacityWithBareDiamond(d1: string, d2: string, note: string)
    requires |d1| > 0 && |d2| > 0 && AllDigits(d1) && AllDigits(d2) && Plain(note)
    ensures CapacityText(d1 + "," + d2 + "\U{2666}[" + note) == d1 + d2 + "\U{2666}"
    ensures ToNumeric(CapacityText(d1 + "," + d2 + "\U{2666}[" + note)) == 0
  {
    DigitGroupsPlain(d1, d2);
    DiamondWithoutSpaceKept(d1 + "," + d2, note);
    assert (d1 + "," + d2) + "\U{2666}" == d1 + "," + d2 + "\U{2666}";
    DropThousandsComma(d1, d2, "\U{2666}");
    var t := d1 + d2 + "\U{2666}";
    ToNumericRejectsStrayChar(t, |t| - 1);
  }

  // ---------------------------------------------------------------------------
  // Locations
  // ---------------------------------------------------------------------------

  /** The geocoder: a free-text query to a coordinate, or None when nothing was
      found or the lookup failed. */
  type Geocoder = string -> Option<Coord>

  /** The query of a lookup: a place and the country, separated by a comma. */
  function Query(place: string, country: string): (q: string)
    ensures |q| == |place| + 2 + |country|
    ensures q[..|place|] == place && q[|q| - |country|..] == country
    ensures q[|place|..|place| + 2] == ", "
  {
    place + ", " + country
  }

  /** The first lookup of every record, by stadium name and country. */
  function FirstLocations(data: seq<RawRecord>, geo: Geocoder): (locs: seq<Option<Coord>>)
    ensures |locs| == |data|
    ensures forall i :: 0 <= i < |data| ==> locs[i] == geo(Query(data[i].stadium, data[i].country))
  {
    seq(|data|, i requires 0 <= i < |data| => geo(Query(data[i].stadium, data[i].country)))
  }

  /** Duplicate detection with the first occurrence kept: an entry is a
      duplicate when an earlier entry is equal to it. Two failed lookups are
      equal, so every failed lookup after the first is a duplicate too. */
  predicate Duplicated(locs: seq<Option<Coord>>, i: nat)
    requires i < |locs|
  {
    exists j :: 0 <= j < i && locs[j] == locs[i]
  }

  /** The duplicate mask computed in one pass with a set of the values seen
      so far, the way a hash-based implementation computes it. */
  method DuplicatedMask(locs: seq<Option<Coord>>) returns (mask: seq<bool>)
    ensures |mask| == |locs|
    ensures forall i :: 0 <= i < |locs| ==> (mask[i] <==> Duplicated(locs, i))
  {
    var seen: set<Option<Coord>> := {};
    mask := [];
    var i := 0;
    while i < |locs|
      invariant i <= |locs| && |mask| == i
      invariant forall v :: v in seen <==> exists j :: 0 <= j < i && locs[j] == v
      invariant forall k :: 0 <= k < i ==> (mask[k] <==> Duplicated(locs, k))
    {
      mask := mask + [locs[i] in seen];
      seen := seen + {locs[i]};
      i := i + 1;
    }
  }

  /** Writing the second lookups back: a found coordinate replaces the first
      one, a failed second lookup leaves the first one in place. */
  function UpdateLocation(first: Option<Coord>, second: Option<Coord>): (r: Option<Coord>)
    ensures second.Some? ==> r == second
    ensures second.None? ==> r == first
  {
    if second.Some? then second else first
  }

  /** The stage's output for one record with its final location. */
  function ToStadium(rec: RawRecord, loc: Option<Coord>): (s: Stadium)
    ensures s.rank == rec.rank && s.stadium == rec.stadium && s.region == rec.region
    ensures s.country == rec.country && s.city == rec.city && s.homeTeam == rec.homeTeam
    ensures s.capacity == ToNumeric(rec.capacity) && s.images == NormaliseImage(rec.images)
    ensures s.location == loc
  {
    Stadium(rec.rank, rec.stadium, ToNumeric(rec.capacity), rec.region, rec.country,
            rec.city, NormaliseImage(rec.images), rec.homeTeam, loc)
  }

  /** The location a record ends up with, given the first lookups `locs`. */
  function FinalLocation(data: seq<RawRecord>, geo: Geocoder, locs: seq<Option<Coord>>, i: nat): Option<Coord>
    requires |locs| == |data| && i < |data|
  {
    if Duplicated(locs, i) then UpdateLocation(locs[i], geo(Query(data[i].city, data[i].country)))
    else locs[i]
  }

  /** The whole transform stage. An empty input yields NoData; otherwise every
      record is kept, in order, with numeric capacity, a normalised picture and
      a location: the stadium lookup, or for a record whose stadium lookup
      repeats an earlier one, the city lookup when that finds something. */
  function Transform(data: seq<RawRecord>, geo: Geocoder): (res: TransformResult)
    ensures res.NoData? <==> |data| == 0
    ensures res.Transformed? ==>
              && |res.rows| == |data|
              && forall i :: 0 <= i < |data| ==>
                   && res.rows[i] == ToStadium(data[i], res.rows[i].location)
                   && (!Duplicated(FirstLocations(data, geo), i) ==>
                         res.rows[i].location == geo(Query(data[i].stadium, data[i].country)))
                   && (Duplicated(FirstLocations(data, geo), i) ==>
                         res.rows[i].location == UpdateLocation(geo(Query(data[i].stadium, data[i].country)),
                                                                geo(Query(data[i].city, data[i].country))))
  {
    if |data| == 0 then NoData
    else
      var locs := FirstLocations(data, geo);
      var rows := seq(|data|, i requires 0 <= i < |data| => ToStadium(data[i], FinalLocation(data, geo, locs, i)));
      Transformed(rows)
  }

  /** Failed lookups count as duplicates of each other: once an earlier
      record's stadium lookup has failed, a later record whose stadium lookup
      fails too ends up with exactly its city lookup. */
  lemma FailedLookupRetriedByCity(data: seq<RawRecord>, geo: Geocoder, j: nat, i: nat)
    requires j < i < |data|
    requires geo(Query(data[j].stadium, data[j].country)).None?
    requires geo(Query(data[i].stadium, data[i].country)).None?
    ensures Transform(data, geo).rows[i].location == geo(Query(data[i].city, data[i].country))
  {
    var locs := FirstLocations(data, geo);
    assert locs[j] == locs[i];
  }

  /** The second lookup does not make locations unique: with a geocoder that
      answers every query with the same coordinate, every record keeps that
      coordinate, so any two records share it. */
  lemma DuplicatesCanSurvive(data: seq<RawRecord>, c: Coord)
    requires |data| >= 2
    ensures var res := Transform(data, q => Some(c));
            && (forall i :: 0 <= i < |data| ==> res.rows[i].location == Some(c))
            && res.rows[0].location == res.rows[1].location
  {
    var geo: Geocoder := q => Some(c);
    var res := Transform(data, geo);
    forall i | 0 <= i < |data|
      ensures res.rows[i].location == Some(c)
    {
      assert geo(Query(data[i].stadium, data[i].country)) == Some(c);
      assert geo(Query(data[i].city, data[i].country)) == Some(c);
    }
  }

  /** The stage depends on the geocoder only through the queries it issues:
      the stadium query of every record and the city query of the duplicates.
      Two geocoders that agree on those give the same output. */
  lemma TransformUsesIssuedQueriesOnly(data: seq<RawRecord>, g1: Geocoder, g2: Geocoder)
    requires forall i :: 0 <= i < |data| ==>
               g1(Query(data[i].stadium, data[i].country)) == g2(Query(data[i].stadium, data[i].country))
    requires forall i :: 0 <= i < |data| && Duplicated(FirstLocations(data, g1), i) ==>
               g1(Query(data[i].city, data[i].country)) == g2(Query(data[i].city, data[i].country))
    ensures Transform(data, g1) == Transform(data, g2)
  {
    if |data| > 0 {
      var l1 := FirstLocations(data, g1);
      var l2 := FirstLocations(data, g2);
      assert l1 == l2;
      var r1 := Transform(data, g1).rows;
      var r2 := Transform(data, g2).rows;
      forall i | 0 <= i < |data|
        ensures r1[i] == r2[i]
      {
        assert r1[i].location == r2[i].location;
      }
      assert r1 == r2;
    }
  }

  /** The transform keeps the extract stage's order: the ranks of the
      transformed records of a table still increase strictly. */
  lemma TransformKeepsRankOrder(rows: seq<Row>, geo: Geocoder)
    requires |ExtractRecords(rows)| > 0
    ensures var res := Transform(ExtractRecords(rows), geo);
            forall k, l :: 0 <= k < l < |res.rows| ==> res.rows[k].rank < res.rows[l].rank
  {
    var data := ExtractRecords(rows);
    var res := Transform(data, geo);
    forall k, l | 0 <= k < l < |res.rows|
      ensures res.rows[k].rank < res.rows[l].rank
    {
      assert res.rows[k].rank == data[k].rank && res.rows[l].rank == data[l].rank;
    }
  }
}
