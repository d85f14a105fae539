/** The handful of Python `str` operations the pipeline relies on, modelled on
    `seq<char>`: `strip()`, `sep in s`, `s.split(sep)[0]`, `s.split(sep)[1]` and
    `s.replace(pat, rep)`. Each is given the meaning Python gives it for a
    non-empty separator or pattern (all the call sites use constant, non-empty ones). */
module PyStr {
  import opened Wrappers

  /** Whitespace as `str.isspace()` sees it: the ASCII controls Python treats as
      space, plus the Unicode space and line/paragraph separators. */
  predicate IsSpace(c: char) {
    || ('\t' <= c <= '\r')
    || ('\U{1C}' <= c <= ' ')
    || c == '\U{85}' || c == '\U{A0}' || c == '\U{1680}'
    || ('\U{2000}' <= c <= '\U{200A}')
    || c == '\U{2028}' || c == '\U{2029}' || c == '\U{202F}' || c == '\U{205F}' || c == '\U{3000}'
  }

  /** The index of the first non-whitespace character at or after `i`
      (`|s|` if there is none): where `s.lstrip()` starts. */
  function SkipSpaces(s: string, i: nat): (j: nat)
    requires i <= |s|
    ensures i <= j <= |s|
    ensures forall k :: i <= k < j ==> IsSpace(s[k])
    ensures j < |s| ==> !IsSpace(s[j])
    decreases |s| - i
  {
    if i < |s| && IsSpace(s[i]) then SkipSpaces(s, i + 1) else i
  }

  /** The end of `s[lo..hi]` once trailing whitespace is dropped: where
      `s.rstrip()` ends. */
  function SkipSpacesBack(s: string, lo: nat, hi: nat): (j: nat)
    requires lo <= hi <= |s|
    ensures lo <= j <= hi
    ensures forall k :: j <= k < hi ==> IsSpace(s[k])
    ensures j > lo ==> !IsSpace(s[j - 1])
    decreases hi
  {
    if hi > lo && IsSpace(s[hi - 1]) then SkipSpacesBack(s, lo, hi - 1) else hi
  }

  /** `p` occurs in `s` starting at index `i`. */
  predicate IsInfixAt(s: string, p: string, i: nat) {
    i + |p| <= |s| && forall k :: 0 <= k < |p| ==> s[i + k] == p[k]
  }

  /** Python's `p in s`. */
  predicate Contains(s: string, p: string) {
    exists i | 0 <= i <= |s| :: IsInfixAt(s, p, i)
  }

  /** `s.strip()`: the result is a piece of `s` that neither starts nor ends
      with whitespace, and everything cut away on either side is whitespace. */
  function Strip(s: string): (r: string)
    ensures |r| > 0 ==> !IsSpace(r[0]) && !IsSpace(r[|r| - 1])
    ensures |r| <= |s|
    ensures |s| == 0 || (!IsSpace(s[0]) && !IsSpace(s[|s| - 1])) ==> r == s
  {
    var i := SkipSpaces(s, 0);
    var j := SkipSpacesBack(s, i, |s|);
    s[i..j]
  }

  /** What `strip()` removes is whitespace: its result sits inside `s` with only
      whitespace before and after it. */
  lemma StripRemovesOnlySpace(s: string)
    ensures exists i: nat :: IsInfixAt(s, Strip(s), i)
                             && (forall k :: 0 <= k < i ==> IsSpace(s[k]))
                             && (forall k :: i + |Strip(s)| <= k < |s| ==> IsSpace(s[k]))
  {
    var i := SkipSpaces(s, 0);
    assert IsInfixAt(s, Strip(s), i);
  }

  /** `s.find(p)` with None for -1: the first index where `p` occurs. */
  function Find(s: string, p: string): (r: Option<nat>)
    requires |p| > 0
    ensures r.Some? ==> IsInfixAt(s, p, r.value)
    ensures r.Some? ==> forall j: nat :: j < r.value ==> !IsInfixAt(s, p, j)
    ensures r.None? <==> !Contains(s, p)
    decreases |s|
  {
    if |s| < |p| then None
    else if IsInfixAt(s, p, 0) then Some(0)
    else
      ShiftInfix(s, p);
      assert Contains(s, p) ==> Contains(s[1..], p) by {
        if Contains(s, p) {
          var i :| 0 <= i <= |s| && IsInfixAt(s, p, i);
          assert IsInfixAt(s[1..], p, i - 1);
        }
      }
      match Find(s[1..], p)
      case None => None
      case Some(k) =>
        assert forall j: nat :: 0 < j < k + 1 ==> !IsInfixAt(s, p, j) by {
          forall j: nat | 0 < j < k + 1
            ensures !IsInfixAt(s, p, j)
          {
            assert !IsInfixAt(s[1..], p, j - 1);
          }
        }
        Some(k + 1)
  }

  /** Occurrences in `s[1..]` are the occurrences in `s` shifted by one. */
  lemma ShiftInfix(s: string, p: string)
    requires |s| > 0
    ensures forall j: nat :: IsInfixAt(s[1..], p, j) <==> IsInfixAt(s, p, j + 1)
  {
    forall j: nat
      ensures IsInfixAt(s[1..], p, j) <==> IsInfixAt(s, p, j + 1)
    {
      assert forall k :: 0 <= k < |s| - 1 ==> s[1..][k] == s[k + 1];
    }
  }

  /** `s.split(sep)[0]`: the part of `s` before the first `sep`, or all of `s`. */
  function SplitHead(s: string, sep: string): (r: string)
    requires |sep| > 0
    ensures r <= s
    ensures !Contains(r, sep)
    ensures forall j: nat :: j < |r| ==> !IsInfixAt(s, sep, j)
    ensures Contains(s, sep) ==> IsInfixAt(s, sep, |r|)
    ensures !Contains(s, sep) ==> r == s
  {
    match Find(s, sep)
    case None => s
    case Some(k) =>
      var r := s[..k];
      assert forall j: nat :: IsInfixAt(r, sep, j) ==> IsInfixAt(s, sep, j);
      r
  }

  /** `piece` sits at `m` in `s`, no `sep` starts inside it, and it ends at a
      `sep` or at the end of `s`. */
  predicate PieceAt(s: string, sep: string, m: nat, piece: string) {
    && IsInfixAt(s, piece, m)
    && !Contains(piece, sep)
    && (m + |piece| == |s| || IsInfixAt(s, sep, m + |piece|))
    && (forall j: nat :: m <= j < m + |piece| ==> !IsInfixAt(s, sep, j))
  }

  /** `piece` is what `s.split(sep)[1]` gives: the piece that starts right
      after the first `sep` and runs to the next `sep` or to the end of `s`. */
  predicate SecondPieceOf(s: string, sep: string, piece: string)
    requires |sep| > 0
  {
    PieceAt(s, sep, |SplitHead(s, sep)| + |sep|, piece)
  }

  /** `SecondPieceOf` determines the piece: at most one piece satisfies it. */
  lemma SecondPieceUnique(s: string, sep: string, p1: string, p2: string)
    requires |sep| > 0 && SecondPieceOf(s, sep, p1) && SecondPieceOf(s, sep, p2)
    ensures p1 == p2
  {
    var m := |SplitHead(s, sep)| + |sep|;
    PieceAtNoLonger(s, sep, m, p1, p2);
    PieceAtNoLonger(s, sep, m, p2, p1);
    assert p1 == s[m..m + |p1|] && p2 == s[m..m + |p2|];
  }

  /** A piece at `m` ends at the first separator after `m`, so a second one
      cannot be shorter. */
  lemma PieceAtNoLonger(s: string, sep: string, m: nat, a: string, b: string)
    requires PieceAt(s, sep, m, a) && PieceAt(s, sep, m, b)
    ensures |a| <= |b|
  {
    if |b| < |a| {
      assert false;
    }
  }

  /** `s.split(sep)[1]`: the part between the first and the second `sep` (or the
      end); `None` where Python raises IndexError because `sep` does not occur. */
  function SplitSecond(s: string, sep: string): (r: Option<string>)
    requires |sep| > 0
    ensures r.None? <==> !Contains(s, sep)
    ensures r.Some? ==> SecondPieceOf(s, sep, r.value)
  {
    match Find(s, sep)
    case None => None
    case Some(k) =>
      var m := k + |sep|;
      var r := SplitHead(s[m..], sep);
      PieceAfter(s, sep, m, r);
      SplitHeadAtFirst(s, sep, k);
      Some(r)
  }

  /** The head of the split of the suffix from `m` on, seen in the whole
      string: it sits at `m`, no separator starts inside it, and it ends at a
      separator or at the end. */
  lemma PieceAfter(s: string, sep: string, m: nat, r: string)
    requires |sep| > 0 && m <= |s| && r == SplitHead(s[m..], sep)
    ensures PieceAt(s, sep, m, r)
  {
    assert IsInfixAt(s[m..], r, 0);
    InfixInSuffix(s, m, r, 0);
    InfixInSuffix(s, m, sep, |r|);
    NoEarlierInSuffix(s, m, sep, r);
  }

  /** The head of a suffix's split has no separator starting inside it, seen
      from the whole string. */
  lemma NoEarlierInSuffix(s: string, off: nat, sep: string, r: string)
    requires |sep| > 0 && off <= |s| && r == SplitHead(s[off..], sep)
    ensures forall j: nat :: off <= j < off + |r| ==> !IsInfixAt(s, sep, j)
  {
    forall j: nat | off <= j < off + |r|
      ensures !IsInfixAt(s, sep, j)
    {
      InfixToSuffix(s, off, sep, j);
    }
  }

  /** An occurrence at or after a suffix's offset is an occurrence in the
      suffix. */
  lemma InfixToSuffix(s: string, off: nat, p: string, j: nat)
    requires off <= j && off <= |s|
    ensures IsInfixAt(s, p, j) ==> IsInfixAt(s[off..], p, j - off)
  {
    if IsInfixAt(s, p, j) {
      var t := s[off..];
      forall k | 0 <= k < |p|
        ensures t[j - off + k] == p[k]
      {
        assert s[j + k] == p[k];
      }
    }
  }

  /** The head of a split ends exactly at the first occurrence. */
  lemma SplitHeadAtFirst(s: string, sep: string, k: nat)
    requires |sep| > 0 && IsInfixAt(s, sep, k)
    requires forall j: nat :: j < k ==> !IsInfixAt(s, sep, j)
    ensures |SplitHead(s, sep)| == k
  {
    assert Contains(s, sep);
    var r := SplitHead(s, sep);
    assert IsInfixAt(s, sep, |r|);
  }

  /** An occurrence in a suffix is an occurrence in the whole string, shifted
      by the suffix's offset. */
  lemma InfixInSuffix(s: string, off: nat, p: string, j: nat)
    requires off <= |s|
    ensures IsInfixAt(s[off..], p, j) ==> IsInfixAt(s, p, off + j)
  {
    if IsInfixAt(s[off..], p, j) {
      var t := s[off..];
      forall k | 0 <= k < |p|
        ensures s[off + j + k] == p[k]
      {
        assert t[j + k] == p[k];
      }
    }
  }

  /** `s.replace(pat, rep)`: every occurrence of `pat`, scanned left to right
      without overlap, is replaced by `rep`. */
  function ReplaceAll(s: string, pat: string, rep: string): (r: string)
    requires |pat| > 0
    ensures |rep| <= |pat| ==> |r| <= |s|
    ensures |pat| == 1 && pat[0] !in rep ==> pat[0] !in r
    ensures !Contains(s, pat) ==> r == s
    decreases |s|
  {
    if |s| < |pat| then s
    else if IsInfixAt(s, pat, 0) then
      rep + ReplaceAll(s[|pat|..], pat, rep)
    else
      ShiftInfix(s, pat);
      [s[0]] + ReplaceAll(s[1..], pat, rep)
  }

  /** Replacing introduces no character that is in neither the text nor the
      replacement. */
  lemma {:induction false} ReplaceAllChars(s: string, pat: string, rep: string)
    requires |pat| > 0
    ensures forall c :: c in ReplaceAll(s, pat, rep) ==> c in s || c in rep
    decreases |s|
  {
    if |s| < |pat| {
    } else if IsInfixAt(s, pat, 0) {
      ReplaceAllChars(s[|pat|..], pat, rep);
    } else {
      ReplaceAllChars(s[1..], pat, rep);
    }
  }

  /** For a one-character pattern, `in` is plain sequence membership. */
  lemma ContainsChar(s: string, c: char)
    ensures Contains(s, [c]) <==> c in s
  {
    if c in s {
      var i :| 0 <= i < |s| && s[i] == c;
      assert IsInfixAt(s, [c], i);
    }
    if Contains(s, [c]) {
      var i :| 0 <= i <= |s| && IsInfixAt(s, [c], i);
      assert s[i + 0] == [c][0];
    }
  }

  /** A pattern can only occur in a string holding each of its characters. */
  lemma OccurrenceChars(s: string, p: string)
    ensures Contains(s, p) ==> forall k :: 0 <= k < |p| ==> p[k] in s
  {
    if Contains(s, p) {
      var i :| 0 <= i <= |s| && IsInfixAt(s, p, i);
      assert forall k :: 0 <= k < |p| ==> p[k] == s[i + k];
    }
  }

  /** Replacing one character by one character maps the string position by
      position, so the length is kept and nothing else changes. */
  lemma {:induction false} ReplaceCharPointwise(s: string, a: char, b: char)
    ensures |ReplaceAll(s, [a], [b])| == |s|
    ensures forall k :: 0 <= k < |s| ==>
              ReplaceAll(s, [a], [b])[k] == if s[k] == a then b else s[k]
    decreases |s|
  {
    if |s| > 0 {
      ReplaceCharPointwise(s[1..], a, b);
      assert s[..1] == [s[0]];
    }
  }

  /** Deleting one character keeps the count of every other character. */
  lemma {:induction false} RemoveCharKeepsOthers(s: string, a: char, c: char)
    requires c != a
    ensures multiset(ReplaceAll(s, [a], ""))[c] == multiset(s)[c]
    decreases |s|
  {
    if |s| > 0 {
      RemoveCharKeepsOthers(s[1..], a, c);
      assert s == [s[0]] + s[1..];
      assert s[..1] == [s[0]];
    }
  }

  /** One step of deleting a character: the first character goes or stays. */
  lemma RemoveCharStep(s: string, a: char)
    requires |s| > 0
    ensures ReplaceAll(s, [a], "") == (if s[0] == a then "" else [s[0]]) + ReplaceAll(s[1..], [a], "")
  {
    if s[0] == a {
      assert s[0 + 0] == [a][0];
      assert IsInfixAt(s, [a], 0);
    } else {
      assert s[0 + 0] != [a][0];
    }
  }

  lemma ConsAppend(x: string, t: string)
    requires |x| > 0
    ensures [x[0]] + (x[1..] + t) == x + t
  {
    assert [x[0]] + x[1..] == x;
  }

  /** Deleting a character from `x + [a] + y`, where `x` holds none, keeps `x`
      and carries on in `y`. */
  lemma {:induction false} RemoveCharAfter(x: string, a: char, y: string)
    requires a !in x
    ensures ReplaceAll(x + [a] + y, [a], "") == x + ReplaceAll(y, [a], "")
    decreases |x|
  {
    var s := x + [a] + y;
    RemoveCharStep(s, a);
    if |x| == 0 {
      assert s[0] == a && s[1..] == y;
    } else {
      var rest := x[1..] + [a] + y;
      assert s[0] != a by {
        assert s[0] == x[0];
        assert x[0] in x;
      }
      assert s[1..] == rest;
      assert a !in x[1..] by {
        assert forall c :: c in x[1..] ==> c in x;
      }
      RemoveCharAfter(x[1..], a, y);
      var tail := ReplaceAll(y, [a], "");
      calc {
        ReplaceAll(s, [a], "");
        [x[0]] + ReplaceAll(rest, [a], "");
        [x[0]] + (x[1..] + tail);
        { ConsAppend(x, tail); }
        x + tail;
      }
    }
  }
}
