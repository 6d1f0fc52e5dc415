/**
  Picking the recorded file's path out of a downloader output line, with the
  pattern `(?:INFO:|Recorded)\s+(.+\.(?:mp4|m4v|mp3|m4a|aac|ts))` and the
  capture trimmed. The pattern is written out as a scanner with the regex
  engine's leftmost-first, greedy semantics, on lines that hold no '\n'
  (the only lines it is given).
*/
module OutputPath {
  import opened Wrappers
  import opened Text

  /** `s[i]` is `c`. */
  predicate At(s: string, i: nat, c: char) {
    i < |s| && s[i] == c
  }

  /**
    The length of the extension spelled from index `q`, or 0: the
    alternatives `mp4|m4v|mp3|m4a|aac|ts` in order. None is a prefix of
    another, so at most one fits.
  */
  function ExtLen(s: string, q: nat): (n: nat)
    ensures n == 0 || n == 2 || n == 3
    ensures n > 0 ==> q + n <= |s| && forall k :: q <= k < q + n ==> ExtChar(s[k])
  {
    if At(s, q, 'm') && At(s, q + 1, 'p') && At(s, q + 2, '4') then 3
    else if At(s, q, 'm') && At(s, q + 1, '4') && At(s, q + 2, 'v') then 3
    else if At(s, q, 'm') && At(s, q + 1, 'p') && At(s, q + 2, '3') then 3
    else if At(s, q, 'm') && At(s, q + 1, '4') && At(s, q + 2, 'a') then 3
    else if At(s, q, 'a') && At(s, q + 1, 'a') && At(s, q + 2, 'c') then 3
    else if At(s, q, 't') && At(s, q + 1, 's') then 2
    else 0
  }

  /** The characters extensions are spelled with: never a dot, never whitespace. */
  predicate ExtChar(c: char) {
    'a' <= c <= 'z' || '0' <= c <= '9'
  }

  /** A '.' at `p` followed by one of the extensions. */
  predicate DotExt(s: string, p: nat) {
    p < |s| && s[p] == '.' && ExtLen(s, p + 1) > 0
  }

  /** Where the `.ext` starting at `p` ends. */
  function DotExtEnd(s: string, p: nat): (e: nat)
    requires DotExt(s, p)
    ensures p + 2 < e <= |s|
  {
    p + 1 + ExtLen(s, p + 1)
  }

  /** The largest `p` in `[lo, hi)` with `DotExt(s, p)`: where the greedy `.+` lets go. */
  function LastDotExt(s: string, lo: nat, hi: nat): (r: Option<nat>)
    ensures r.Some? ==>
      lo <= r.value < hi && DotExt(s, r.value) && forall q :: r.value < q < hi ==> !DotExt(s, q)
    ensures r.None? ==> forall q :: lo <= q < hi ==> !DotExt(s, q)
    decreases hi
  {
    if hi <= lo then None
    else if DotExt(s, hi - 1) then Some(hi - 1)
    else LastDotExt(s, lo, hi - 1)
  }

  /** Where the keyword at `i` ends, if one of the two alternatives starts there. */
  function KeywordEnd(s: string, i: nat): Option<nat> {
    if Occurs(s, "INFO:", i) then Some(i + 5)
    else if Occurs(s, "Recorded", i) then Some(i + 8)
    else None
  }

  /**
    The capture of a match starting at `i`, give or take leading whitespace.
    After the keyword come one or more whitespace characters (so `s[a]` is
    one) and at least one more character before the `.ext`; the capture runs
    to the end of the last `.ext`. Where exactly it starts inside the
    whitespace run does not matter: the capture is trimmed.
  */
  function MatchAt(s: string, i: nat): Option<string> {
    match KeywordEnd(s, i)
    case None => None
    case Some(a) =>
      if a < |s| && IsSpace(s[a]) then
        match LastDotExt(s, a + 2, |s|)
        case None => None
        case Some(p) => Some(s[a..DotExtEnd(s, p)])
      else None
  }

  /** The leftmost match at or after `i`. */
  function FirstMatch(s: string, i: nat): (r: Option<string>)
    requires i <= |s|
    ensures r.Some? <==> exists j :: i <= j <= |s| && MatchAt(s, j).Some?
    decreases |s| - i
  {
    if MatchAt(s, i).Some? then MatchAt(s, i)
    else if i == |s| then None
    else FirstMatch(s, i + 1)
  }

  /** Ends in a '.' and one of the extensions. */
  predicate EndsWithExt(x: string) {
    exists p :: 0 <= p < |x| && DotExt(x, p) && DotExtEnd(x, p) == |x|
  }

  /** `extract_output_path` as written. */
  function ExtractOutputPathAsWritten(line: string): (r: Option<string>)
    requires '\n' !in line
    ensures r.Some? <==> exists j :: 0 <= j <= |line| && MatchAt(line, j).Some?
  {
    match FirstMatch(line, 0)
    case None => None
    case Some(c) => Some(Trim(c))
  }

  /** `s` holds `t` from index `off` on: a `.ext` in `t` is one in `s`, shifted. */
  lemma DotExtShift(s: string, t: string, off: nat, p: nat)
    requires off + |t| <= |s| && forall k :: 0 <= k < |t| ==> s[off + k] == t[k]
    requires DotExt(t, p)
    ensures DotExt(s, p + off) && DotExtEnd(s, p + off) == DotExtEnd(t, p) + off
  {
  }

  /** ... and a `.ext` of `s` that lies inside `t` is one of `t`. */
  lemma DotExtUnshift(s: string, t: string, off: nat, q: nat)
    requires off + |t| <= |s| && forall k :: 0 <= k < |t| ==> s[off + k] == t[k]
    requires off <= q && DotExt(s, q) && DotExtEnd(s, q) <= off + |t|
    ensures DotExt(t, q - off) && DotExtEnd(t, q - off) + off == DotExtEnd(s, q)
  {
  }

  /** Nothing after a `.ext` that ends the text is another `.ext`. */
  lemma LastDotExtAtEnd(s: string, p: nat, lo: nat)
    requires lo <= p && DotExt(s, p) && DotExtEnd(s, p) == |s|
    ensures LastDotExt(s, lo, |s|) == Some(p)
  {
    assert forall q :: p < q < |s| ==> ExtChar(s[q]);
    LastDotExtFrom(s, lo, |s|, p);
  }

  lemma {:induction false} LastDotExtFrom(s: string, lo: nat, hi: nat, p: nat)
    requires lo <= p < hi && DotExt(s, p)
    requires forall q :: p < q < hi ==> !DotExt(s, q)
    ensures LastDotExt(s, lo, hi) == Some(p)
    decreases hi
  {
    if hi - 1 != p {
      LastDotExtFrom(s, lo, hi - 1, p);
    }
  }

  /** Every capture ends in one of the extensions. */
  lemma MatchEndsWithExt(s: string, i: nat)
    requires MatchAt(s, i).Some?
    ensures EndsWithExt(MatchAt(s, i).value)
  {
    var a := KeywordEnd(s, i).value;
    var p := LastDotExt(s, a + 2, |s|).value;
    var end := DotExtEnd(s, p);
    var x := s[a..end];
    assert forall k :: 0 <= k < |x| ==> x[k] == s[a + k];
    DotExtUnshift(s, x, a, p);
  }

  /** Text that ends like `x` does, over `x`'s final `.ext`, ends in that extension too. */
  lemma EndsWithExtSuffix(x: string, t: string, n: nat)
    requires n <= |x| && n <= |t| && t[|t| - n..] == x[|x| - n..]
    requires DotExt(x, |x| - n) && DotExtEnd(x, |x| - n) == |x|
    ensures EndsWithExt(t)
  {
    var y := x[|x| - n..];
    assert forall k :: 0 <= k < |y| ==> x[|x| - n + k] == y[k];
    DotExtUnshift(x, y, |x| - n, |x| - n);
    assert forall k :: 0 <= k < |y| ==> t[|t| - n + k] == y[k];
    DotExtShift(t, y, |t| - n, 0);
  }

  /** Trimming keeps a final extension. */
  lemma TrimKeepsExt(x: string)
    requires EndsWithExt(x)
    ensures EndsWithExt(Trim(x))
  {
    var p :| 0 <= p < |x| && DotExt(x, p) && DotExtEnd(x, p) == |x|;
    ExtTailNotSpace(x, p);
    SuffixSurvivesTrim(x, |x| - p);
    EndsWithExtSuffix(x, Trim(x), |x| - p);
  }

  /** A final `.ext` holds no whitespace. */
  lemma ExtTailNotSpace(x: string, p: nat)
    requires DotExt(x, p) && DotExtEnd(x, p) == |x|
    ensures forall k :: |x| - (|x| - p) <= k < |x| ==> !IsSpace(x[k])
  {
    assert forall k :: p < k < |x| ==> ExtChar(x[k]);
  }

  lemma {:induction false} FirstMatchEndsWithExt(s: string, i: nat)
    requires i <= |s| && FirstMatch(s, i).Some?
    ensures EndsWithExt(FirstMatch(s, i).value)
    decreases |s| - i
  {
    if MatchAt(s, i).Some? {
      MatchEndsWithExt(s, i);
    } else {
      FirstMatchEndsWithExt(s, i + 1);
    }
  }

  /** Every path the pattern yields ends in one of the extensions. */
  lemma ExtractedPathEndsWithExt(line: string)
    requires '\n' !in line && ExtractOutputPathAsWritten(line).Some?
    ensures EndsWithExt(ExtractOutputPathAsWritten(line).value)
  {
    FirstMatchEndsWithExt(line, 0);
    TrimKeepsExt(FirstMatch(line, 0).value);
  }

  /** A match at the very start that runs to the end of the text. */
  lemma MatchToEnd(s: string, a: nat, p: nat)
    requires KeywordEnd(s, 0) == Some(a) && a < |s| && IsSpace(s[a])
    requires LastDotExt(s, a + 2, |s|) == Some(p) && DotExtEnd(s, p) == |s|
    ensures FirstMatch(s, 0) == Some(s[a..])
  {
    assert MatchAt(s, 0) == Some(s[a..DotExtEnd(s, p)]);
    assert s[a..|s|] == s[a..];
  }

  /** Text in front of a path that ends in an extension leaves that extension the last one. */
  lemma LastDotExtBehind(pre: string, path: string, lo: nat) returns (p: nat)
    requires lo <= |pre| && EndsWithExt(path)
    ensures LastDotExt(pre + path, lo, |pre + path|) == Some(p) && DotExtEnd(pre + path, p) == |pre + path|
  {
    var q :| 0 <= q < |path| && DotExt(path, q) && DotExtEnd(path, q) == |path|;
    ShiftedTail(pre, path, q);
    p := q + |pre|;
    LastDotExtAtEnd(pre + path, p, lo);
  }

  lemma ShiftedTail(pre: string, path: string, q: nat)
    requires DotExt(path, q) && DotExtEnd(path, q) == |path|
    ensures DotExt(pre + path, q + |pre|) && DotExtEnd(pre + path, q + |pre|) == |pre + path|
  {
    var s := pre + path;
    assert forall k :: 0 <= k < |path| ==> s[|pre| + k] == path[k];
    DotExtShift(s, path, |pre|, q);
  }

  lemma RecordedPrefix(path: string)
    ensures var s := "INFO: Recorded " + path;
      KeywordEnd(s, 0) == Some(5) && IsSpace(s[5]) && s[5..] == " Recorded " + path
  {
    var pre := "INFO: Recorded ";
    var s := pre + path;
    assert s[0..5] == pre[0..5] == "INFO:";
    assert s[5..] == pre[5..] + path;
    assert pre[5..] == " Recorded ";
  }

  /**
    The downloader's "INFO: Recorded <path>" line: the leftmost match starts
    at "INFO:", so the capture takes in the word "Recorded" as well.
  */
  lemma RecordedLineMatch(path: string)
    requires EndsWithExt(path)
    ensures FirstMatch("INFO: Recorded " + path, 0) == Some(" Recorded " + path)
  {
    var s := "INFO: Recorded " + path;
    RecordedPrefix(path);
    var p := LastDotExtBehind("INFO: Recorded ", path, 7);
    MatchToEnd(s, 5, p);
  }

  lemma RecordedLineKeepsKeyword(path: string)
    requires '\n' !in path && EndsWithExt(path)
    ensures '\n' !in "INFO: Recorded " + path
    ensures ExtractOutputPathAsWritten("INFO: Recorded " + path) == Some("Recorded " + path)
  {
    NoBreakAdded("INFO: Recorded ", path);
    RecordedLineMatch(path);
    TrimRecorded(path);
  }

  lemma NoBreakAdded(pre: string, path: string)
    requires '\n' !in pre && '\n' !in path
    ensures '\n' !in pre + path
  {
  }

  lemma TrimRecorded(path: string)
    requires EndsWithExt(path)
    ensures Trim(" Recorded " + path) == "Recorded " + path
  {
    var x := "Recorded " + path;
    assert " Recorded " + path == " " + x;
    var q :| 0 <= q < |path| && DotExt(path, q) && DotExtEnd(path, q) == |path|;
    assert ExtChar(path[|path| - 1]);
    assert x[|x| - 1] == path[|path| - 1];
    TrimSpaceLed(" ", x);
  }

  /**
    The path without the keyword: a capture that starts with "Recorded" and
    whitespace loses them. This is what the function is evidently meant to
    return for the "INFO: Recorded <path>" lines it is written for.
  */
  function DropRecorded(c: string): (r: string)
    ensures |r| <= |c|
  {
    if Occurs(c, "Recorded", 0) && |c| > 8 && IsSpace(c[8]) then TrimStart(c[8..]) else c
  }

  function ExtractOutputPath(line: string): (r: Option<string>)
    requires '\n' !in line
    ensures r.Some? <==> ExtractOutputPathAsWritten(line).Some?
  {
    match ExtractOutputPathAsWritten(line)
    case None => None
    case Some(c) => Some(DropRecorded(c))
  }

  /** The corrected extraction returns the path itself. */
  lemma RecordedLineGivesPath(path: string)
    requires '\n' !in path && |path| > 0 && !IsSpace(path[0]) && EndsWithExt(path)
    ensures '\n' !in "INFO: Recorded " + path
    ensures ExtractOutputPath("INFO: Recorded " + path) == Some(path)
  {
    RecordedLineKeepsKeyword(path);
    DropRecordedWord(path);
  }

  lemma DropRecordedWord(path: string)
    requires |path| > 0 && !IsSpace(path[0])
    ensures DropRecorded("Recorded " + path) == path
  {
    var c := "Recorded " + path;
    assert Occurs(c, "Recorded", 0) by {
      assert c[0..8] == "Recorded";
    }
    assert c[8..] == " " + path;
    TrimStartSpaceLed(" ", path);
  }

  /** The line the downloader prints for a finished TV recording. */
  lemma EpisodeExample()
    ensures var line := "INFO: Recorded " + "/downloads/Episode.mp4";
      '\n' !in line
      && ExtractOutputPathAsWritten(line) == Some("Recorded " + "/downloads/Episode.mp4")
      && ExtractOutputPath(line) == Some("/downloads/Episode.mp4")
  {
    var path := "/downloads/Episode.mp4";
    assert DotExt(path, 18) && DotExtEnd(path, 18) == |path|;
    assert '\n' !in path && !IsSpace(path[0]);
    RecordedLineKeepsKeyword(path);
    RecordedLineGivesPath(path);
  }
}
