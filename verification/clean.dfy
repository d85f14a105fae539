/** `clean_text`, the cleaning rule applied to every textual cell. */
module Cleaning {
  import opened PyStr

  const NBSP: string := "&nbsp"
  /** A footnote diamond, only recognised when preceded by a space. */
  const DIAMOND: string := " \U{2666}"
  const CITATION: string := "["
  const FORMERLY: string := " (formerly)"

  /** `if sep in t: t = t.split(sep)[0]` -- keep what precedes the first `sep`. */
  function CutAt(t: string, sep: string): (r: string)
    requires |sep| > 0
    ensures r <= t
    ensures !Contains(r, sep)
    ensures forall j: nat :: j < |r| ==> !IsInfixAt(t, sep, j)
    ensures Contains(t, sep) ==> IsInfixAt(t, sep, |r|)
    ensures !Contains(t, sep) ==> r == t
  {
    if Contains(t, sep) then SplitHead(t, sep) else t
  }

  /** Strip, delete every `&nbsp`, cut at the first " ♦", then at the first "[",
      then at the first " (formerly)", and finally delete every newline. Each step
      works on the output of the previous one. */
  function CleanText(text: string): (r: string)
    ensures '\n' !in r
    ensures '[' !in r
    ensures |r| <= |text|
  {
    var t0 := Strip(text);
    var t1 := ReplaceAll(t0, NBSP, "");
    var t2 := CutAt(t1, DIAMOND);
    var t3 := CutAt(t2, CITATION);
    var t4 := CutAt(t3, FORMERLY);
    var r := ReplaceAll(t4, "\n", "");
    CleanTextFacts(text, t0, t1, t2, t3, t4, r);
    r
  }

  /** Text that, once stripped, holds none of the marks the cleaning rules look
      for comes out stripped and otherwise unchanged. */
  lemma CleanTextKeepsUnmarked(text: string)
    ensures var t := Strip(text);
            && !Contains(t, NBSP) && !Contains(t, DIAMOND) && '[' !in t
            && !Contains(t, FORMERLY) && '\n' !in t
            ==> CleanText(text) == t
  {
    var t0 := Strip(text);
    var t1 := ReplaceAll(t0, NBSP, "");
    var t2 := CutAt(t1, DIAMOND);
    var t3 := CutAt(t2, CITATION);
    var t4 := CutAt(t3, FORMERLY);
    CleanTextFacts(text, t0, t1, t2, t3, t4, ReplaceAll(t4, "\n", ""));
  }

  lemma CleanTextFacts(text: string, t0: string, t1: string, t2: string, t3: string, t4: string, r: string)
    requires t0 == Strip(text)
    requires t1 == ReplaceAll(t0, NBSP, "")
    requires t2 == CutAt(t1, DIAMOND)
    requires t3 == CutAt(t2, CITATION)
    requires t4 == CutAt(t3, FORMERLY)
    requires r == ReplaceAll(t4, "\n", "")
    ensures '\n' !in r && '[' !in r
    ensures |r| <= |text|
    ensures !Contains(t0, NBSP) && !Contains(t0, DIAMOND) && '[' !in t0
            && !Contains(t0, FORMERLY) && '\n' !in t0
            ==> r == t0
  {
    ContainsChar(t3, '[');
    assert '[' !in t4 by {
      forall k | 0 <= k < |t4| ensures t4[k] != '[' {
        assert t4[k] == t3[k];
      }
    }
    ReplaceAllChars(t4, "\n", "");
    if !Contains(t0, NBSP) && !Contains(t0, DIAMOND) && '[' !in t0
       && !Contains(t0, FORMERLY) && '\n' !in t0 {
      ContainsChar(t0, '[');
      ContainsChar(t0, '\n');
    }
  }

  /** Cutting at the first occurrence keeps exactly what precedes it. */
  lemma CutAtFirst(s: string, sep: string, k: nat)
    requires |sep| > 0 && IsInfixAt(s, sep, k)
    requires forall j: nat :: j < k ==> !IsInfixAt(s, sep, j)
    ensures CutAt(s, sep) == s[..k]
  {
    var r := CutAt(s, sep);
    assert |r| == k;
  }

  /** Cutting at a one-character separator keeps exactly what precedes its
      first occurrence. */
  lemma CutAtChar(s: string, c: char, k: nat)
    requires k < |s| && s[k] == c && c !in s[..k]
    ensures CutAt(s, [c]) == s[..k]
  {
    ContainsChar(s, c);
    var r := CutAt(s, [c]);
    ContainsChar(r, c);
    assert s[|r| + 0] == [c][0];
    assert forall i :: 0 <= i < |r| ==> s[i] != c;
    assert forall i :: 0 <= i < k ==> s[..k][i] == s[i];
  }

  /** A separator one of whose characters is missing from `s` leaves `s` alone,
      whether it is cut at or deleted. */
  lemma AbsentSeparator(s: string, sep: string, k: nat)
    requires k < |sep| && sep[k] !in s
    ensures CutAt(s, sep) == s
    ensures ReplaceAll(s, sep, "") == s
  {
    OccurrenceChars(s, sep);
  }

  /** Text none of whose characters triggers a cleaning rule and which has
      no surrounding whitespace. */
  predicate Plain(a: string) {
    && |a| > 0 && !IsSpace(a[0]) && !IsSpace(a[|a| - 1])
    && NBSP[0] !in a && DIAMOND[1] !in a && '[' !in a && FORMERLY[1] !in a && '\n' !in a
  }

  /** Plain text is left as it is. */
  lemma PlainUnchanged(a: string)
    requires Plain(a)
    ensures CleanText(a) == a
  {
    AbsentSeparator(a, NBSP, 0);
    AbsentSeparator(a, DIAMOND, 1);
    AbsentSeparator(a, CITATION, 0);
    AbsentSeparator(a, FORMERLY, 1);
    AbsentSeparator(a, "\n", 0);
  }

  /** `CleanText` assembled from the results of its individual steps. */
  lemma CleanTextByStages(s: string, t0: string, t1: string, t2: string, t3: string, t4: string)
    requires Strip(s) == t0 && ReplaceAll(t0, NBSP, "") == t1 && CutAt(t1, DIAMOND) == t2
    requires CutAt(t2, CITATION) == t3 && CutAt(t3, FORMERLY) == t4
    ensures CleanText(s) == ReplaceAll(t4, "\n", "")
  {
  }

  /** The surrounding text of "a [b" is not whitespace. */
  lemma CitationStrip(a: string, b: string)
    requires Plain(a) && Plain(b)
    ensures Strip(a + " [" + b) == a + " [" + b
  {
    var s := a + " [" + b;
    assert s[0] == a[0] && s[|s| - 1] == b[|b| - 1];
  }

  /** "a [b" holds neither an entity nor a footnote diamond. */
  lemma CitationNoMarks(a: string, b: string)
    requires Plain(a) && Plain(b)
    ensures var s := a + " [" + b;
            ReplaceAll(s, NBSP, "") == s && CutAt(s, DIAMOND) == s
  {
    var s := a + " [" + b;
    AbsentSeparator(s, NBSP, 0);
    AbsentSeparator(s, DIAMOND, 1);
  }

  /** Cutting "a [b" at the citation mark keeps "a ". */
  lemma CitationCut(a: string, b: string)
    requires Plain(a) && Plain(b)
    ensures CutAt(a + " [" + b, CITATION) == a + " "
  {
    var s := a + " [" + b;
    assert s[..|a| + 1] == a + " ";
    CutAtChar(s, '[', |a| + 1);
  }

  /** A citation mark preceded by a space is cut off, but the space in front of
      it survives the first pass. */
  lemma CitationLeavesSpace(a: string, b: string)
    requires Plain(a) && Plain(b)
    ensures CleanText(a + " [" + b) == a + " "
  {
    var s := a + " [" + b;
    var t := a + " ";
    CitationStrip(a, b);
    CitationNoMarks(a, b);
    CitationCut(a, b);
    assert FORMERLY[1] !in t && '\n' !in t by {
      assert t == a + [' '];
    }
    AbsentSeparator(t, FORMERLY, 1);
    AbsentSeparator(t, "\n", 0);
    CleanTextByStages(s, s, s, s, t, t);
  }

  /** A second pass strips the space the first one left. */
  lemma TrailingSpaceStripped(a: string)
    requires Plain(a)
    ensures CleanText(a + " ") == a
  {
    var s := a + " ";
    assert Strip(s) == a by {
      assert SkipSpaces(s, 0) == 0;
      assert SkipSpacesBack(s, 0, |s|) == |a|;
      assert s[..|a|] == a;
    }
    PlainUnchanged(a);
  }

  /** Witnesses that the plainness side conditions are met by real text:
      with these, "abc [1]" is an instance of `CitationLeavesSpace("abc", "1]")`. */
  lemma PlainSamples()
    ensures Plain("abc") && Plain("1]")
  {
  }

  /** Cleaning is not idempotent: for plain `a` and `b`, "a [b" cleans to
      "a ", which a second pass cleans further to "a". */
  lemma CleanTextNotIdempotent(a: string, b: string)
    requires Plain(a) && Plain(b)
    ensures CleanText(CleanText(a + " [" + b)) == a
    ensures CleanText(CleanText(a + " [" + b)) != CleanText(a + " [" + b)
  {
    CitationLeavesSpace(a, b);
    TrailingSpaceStripped(a);
    assert |a + " "| != |a|;
  }

  /** The footnote rule: " ♦" and whatever follows it is cut off. */
  lemma DiamondWithSpaceCut(a: string, b: string)
    requires Plain(a) && Plain(b)
    ensures CleanText(a + DIAMOND + b) == a
  {
    var s := a + DIAMOND + b;
    DiamondSteps(a, b);
    DiamondCut(a, b);
    PlainUnchangedSteps(a);
    CleanTextByStages(s, s, s, a, a, a);
  }

  lemma DiamondSteps(a: string, b: string)
    requires Plain(a) && Plain(b)
    ensures var s := a + DIAMOND + b;
            Strip(s) == s && ReplaceAll(s, NBSP, "") == s
  {
    var s := a + DIAMOND + b;
    assert s[0] == a[0] && s[|s| - 1] == b[|b| - 1];
    AbsentSeparator(s, NBSP, 0);
  }

  lemma DiamondCut(a: string, b: string)
    requires Plain(a) && Plain(b)
    ensures CutAt(a + DIAMOND + b, DIAMOND) == a
  {
    var s := a + DIAMOND + b;
    assert IsInfixAt(s, DIAMOND, |a|);
    forall j: nat | j < |a|
      ensures !IsInfixAt(s, DIAMOND, j)
    {
      if j + 1 < |a| {
        assert s[j + 1] == a[j + 1] && a[j + 1] in a;
      } else {
        assert s[j + 1] == ' ';
      }
    }
    CutAtFirst(s, DIAMOND, |a|);
    assert s[..|a|] == a;
  }

  lemma PlainUnchangedSteps(a: string)
    requires Plain(a)
    ensures CutAt(a, CITATION) == a && CutAt(a, FORMERLY) == a && ReplaceAll(a, "\n", "") == a
  {
    AbsentSeparator(a, CITATION, 0);
    AbsentSeparator(a, FORMERLY, 1);
    AbsentSeparator(a, "\n", 0);
  }

  /** Without the space in front, a footnote diamond is not recognised: it
      survives cleaning, and only the citation mark after it is cut. */
  lemma DiamondWithoutSpaceKept(a: string, b: string)
    requires Plain(a) && Plain(b)
    ensures CleanText(a + "\U{2666}[" + b) == a + "\U{2666}"
  {
    var s := a + "\U{2666}[" + b;
    var t := a + "\U{2666}";
    BareDiamondSteps(a, b);
    BareDiamondCut(a, b);
    assert FORMERLY[1] !in t && '\n' !in t by {
      assert t == a + ['\U{2666}'];
    }
    AbsentSeparator(t, FORMERLY, 1);
    AbsentSeparator(t, "\n", 0);
    CleanTextByStages(s, s, s, s, t, t);
  }

  lemma BareDiamondSteps(a: string, b: string)
    requires Plain(a) && Plain(b)
    ensures var s := a + "\U{2666}[" + b;
            Strip(s) == s && ReplaceAll(s, NBSP, "") == s
  {
    var s := a + "\U{2666}[" + b;
    assert s[0] == a[0] && s[|s| - 1] == b[|b| - 1];
    AbsentSeparator(s, NBSP, 0);
  }

  lemma BareDiamondCut(a: string, b: string)
    requires Plain(a) && Plain(b)
    ensures var s := a + "\U{2666}[" + b;
            CutAt(s, DIAMOND) == s && CutAt(s, CITATION) == a + "\U{2666}"
  {
    var s := a + "\U{2666}[" + b;
    forall j | 0 <= j <= |s|
      ensures !IsInfixAt(s, DIAMOND, j)
    {
      if j + 1 < |a| {
        assert s[j + 1] == a[j + 1];
        assert s[j + 1] != DIAMOND[1];
      } else if j + 1 == |a| {
        assert s[j + 0] == a[|a| - 1];
        assert IsSpace(DIAMOND[0]);
        assert s[j + 0] != DIAMOND[0];
      } else if j + 1 == |a| + 1 {
        assert s[j + 1] == '[';
        assert s[j + 1] != DIAMOND[1];
      } else if j + 1 < |s| {
        assert s[j + 1] == b[j + 1 - |a| - 2];
        assert s[j + 1] != DIAMOND[1];
      }
    }
    assert s[..|a| + 1] == a + "\U{2666}";
    CutAtChar(s, '[', |a| + 1);
  }
}
