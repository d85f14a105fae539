/** The load stage: the name of the CSV file the transformed records are
    written to, and the decision whether anything is written at all
    (pipelines/wikipedia_pipeline.py, lines 170-197). The current date and
    time are parameters, as the strings the clock would render. */
module Loading {
  import opened PyStr
  import opened Records

  const FILE_PREFIX: string := "stadium_cleaned_"
  const FILE_SUFFIX: string := ".csv"

  /** The storage location the file is written under. */
  const TARGET_DIR: string := "abfs://footballdata@dataengfootball.dfs.core.windows.net/data/"

  datatype LoadResult = NoData | Saved(path: string, rows: seq<Stadium>)

  /** Replacing one character by another, pointwise. */
  function SwapChar(s: string, a: char, b: char): (r: string)
    ensures |r| == |s|
    ensures forall k :: 0 <= k < |s| ==> r[k] == if s[k] == a then b else s[k]
  {
    ReplaceCharPointwise(s, a, b);
    ReplaceAll(s, [a], [b])
  }

  /** The file name: the prefix, the date, an underscore, the time with every
      ':' turned into '_', and the extension. */
  function Filename(date: string, time: string): (name: string)
    ensures |name| == |FILE_PREFIX| + |date| + 1 + |time| + |FILE_SUFFIX|
    ensures name[..|FILE_PREFIX|] == FILE_PREFIX
    ensures name[|name| - |FILE_SUFFIX|..] == FILE_SUFFIX
    ensures name[|FILE_PREFIX|..|FILE_PREFIX| + |date|] == date
    ensures name[|FILE_PREFIX| + |date|] == '_'
    ensures ':' !in date ==> ':' !in name
  {
    var stamp := SwapChar(time, ':', '_');
    var name := FILE_PREFIX + date + "_" + stamp + FILE_SUFFIX;
    assert name[|FILE_PREFIX|..|FILE_PREFIX| + |date|] == date;
    assert forall k :: 0 <= k < |stamp| ==> stamp[k] != ':';
    name
  }

  /** The time part of a file name, between the date's underscore and the
      extension. */
  function TimePart(name: string, date: string): string
    requires |name| >= |FILE_PREFIX| + |date| + 1 + |FILE_SUFFIX|
  {
    name[|FILE_PREFIX| + |date| + 1..|name| - |FILE_SUFFIX|]
  }

  /** For a time rendered without underscores (the clock's "HH:MM:SS.ffffff"
      has none), the file name loses nothing: turning the underscores of its
      time part back into colons gives the time. */
  lemma FilenameKeepsTime(date: string, time: string)
    requires '_' !in time
    ensures SwapChar(TimePart(Filename(date, time), date), '_', ':') == time
  {
    var name := Filename(date, time);
    var stamp := SwapChar(time, ':', '_');
    assert name == FILE_PREFIX + date + "_" + stamp + FILE_SUFFIX;
    assert TimePart(name, date) == stamp;
    var back := SwapChar(stamp, '_', ':');
    forall k | 0 <= k < |time|
      ensures back[k] == time[k]
    {
      assert time[k] != '_';
    }
  }

  /** The write: an empty table is reported and nothing is written; otherwise
      the records are written to the named file under the target directory. */
  function Load(rows: seq<Stadium>, date: string, time: string): (res: LoadResult)
    ensures res.NoData? <==> |rows| == 0
    ensures res.Saved? ==> res.rows == rows
    ensures res.Saved? ==> TARGET_DIR <= res.path
    ensures res.Saved? ==> |res.path| >= |TARGET_DIR| && res.path[|TARGET_DIR|..] == Filename(date, time)
  {
    if |rows| == 0 then NoData else Saved(TARGET_DIR + Filename(date, time), rows)
  }
}
