/**
  The parser of the downloader's recursive episode listing. Each episode
  line reads `<name>, <channel>, <pid>` and is matched against
  `^(.+),\s+([^,]+),\s+([bpm][0-9a-z]{7})\s*$`; the name is then split into
  title, series and episode. The first line for a pid wins.

  The patterns are written out as scanners. Since `.+` is greedy and the
  channel holds no ',', a match is determined by the line: the pid is the
  last eight characters before the trailing whitespace, and the name ends at
  the last ',' before the channel.
*/
module Episodes {
  import opened Wrappers
  import opened Text
  import opened Models
  import opened Pid

  /** Blank lines, log lines and banners. */
  predicate Skipped(line: string) {
    line == "" || StartsWith(line, "INFO:") || StartsWith(line, "WARNING:") || StartsWith(line, "ERROR:")
    || StartsWith(line, "Episodes:") || StartsWith(line, "get_iplayer")
  }

  /**
    The captures of the line pattern: the name (group 1), the text after the
    last ',' of group 1 up to the next ',', i.e. the whitespace and channel
    of groups 2 (untrimmed), and the pid (group 3).
  */
  datatype LineParts = LineParts(name: string, after: string, pid: string)

  /** `name` + "," + `after` + "," + whitespace + `pid` + whitespace, with the pattern's constraints. */
  predicate Shaped(line: string, p: LineParts, ws2: string, ws3: string) {
    line == p.name + "," + p.after + "," + ws2 + p.pid + ws3
    && |p.name| > 0
    && ',' !in p.after && |p.after| >= 2 && IsSpace(p.after[0])
    && |ws2| > 0 && AllSpace(ws2) && AllSpace(ws3)
    && IsPid(p.pid)
  }

  /** The line pattern, as a scanner from the end of the line. */
  function SplitLine(line: string): (r: Option<LineParts>)
    ensures r.Some? ==> IsPid(r.value.pid) && |r.value.name| > 0
    ensures r.Some? ==> ',' !in r.value.after && |r.value.after| >= 2 && IsSpace(r.value.after[0])
  {
    var t := TrimEnd(line);
    if |t| < PidLen then None
    else
      var pid := t[|t| - PidLen..];
      var before := t[..|t| - PidLen];
      var b := TrimEnd(before);
      if !IsPid(pid) || |b| == |before| || |b| == 0 || b[|b| - 1] != ',' then None
      else
        var x := b[..|b| - 1];
        match LastIndexOf(x, ',')
        case None => None
        case Some(k) =>
          var after := x[k + 1..];
          if k == 0 || |after| < 2 || !IsSpace(after[0]) then None
          else Some(LineParts(x[..k], after, pid))
  }

  /** Every line of the pattern's shape is matched, with exactly its parts. */
  lemma SplitShaped(line: string, p: LineParts, ws2: string, ws3: string)
    requires Shaped(line, p, ws2, ws3)
    ensures SplitLine(line) == Some(p)
  {
    var x := p.name + "," + p.after;
    var b := x + ",";
    var before := b + ws2;
    var t := before + p.pid;
    assert line == t + ws3;
    TrimEndOver(t, ws3);
    assert t[..|t| - PidLen] == before && t[|t| - PidLen..] == p.pid;
    TrimEndOver(b, ws2);
    assert b[..|b| - 1] == x;
    LastIndexOfAt(p.name, ',', p.after);
    assert x[|p.name| + 1..] == p.after && x[..|p.name|] == p.name;
  }

  /** Every match is of the pattern's shape: the line is its parts with whitespace between. */
  lemma SplitSound(line: string) returns (ws2: string, ws3: string)
    requires SplitLine(line).Some?
    ensures Shaped(line, SplitLine(line).value, ws2, ws3)
  {
    var t, b, k := SplitLineUnfold(line);
    var before := t[..|t| - PidLen];
    assert b == t[..|b|] by {
      assert b == before[..|b|];
    }
    ws3 := line[|t|..];
    ws2 := before[|b|..];
    assert ws2 == t[|b|..|t| - PidLen];
    Reassemble(line, t, b, k);
  }

  /** The pieces a match is cut into, put back together, give the line. */
  lemma Reassemble(line: string, t: string, b: string, k: nat)
    requires |t| <= |line| && t == line[..|t|]
    requires PidLen <= |t| && |b| <= |t| - PidLen && b == t[..|b|]
    requires k < |b| - 1 && b[k] == ',' && b[|b| - 1] == ','
    ensures line == b[..k] + "," + b[k + 1..|b| - 1] + "," + t[|b|..|t| - PidLen] + t[|t| - PidLen..] + line[|t|..]
  {
    assert b == b[..k] + "," + b[k + 1..|b| - 1] + ",";
    assert t == b + t[|b|..|t| - PidLen] + t[|t| - PidLen..];
    assert line == t + line[|t|..];
  }

  /** How a match is cut out of the line: the trimmed line, the text before its last ',' trimmed, and that ','. */
  lemma SplitLineUnfold(line: string) returns (t: string, b: string, k: nat)
    requires SplitLine(line).Some?
    ensures t == TrimEnd(line) && |t| >= PidLen
    ensures b == TrimEnd(t[..|t| - PidLen]) && |b| > 0 && b[|b| - 1] == ','
    ensures k < |b| - 1 && LastIndexOf(b[..|b| - 1], ',') == Some(k)
    ensures SplitLine(line).value == LineParts(b[..k], b[k + 1..|b| - 1], t[|t| - PidLen..])
  {
    t := TrimEnd(line);
    assert |t| >= PidLen;
    var before := t[..|t| - PidLen];
    b := TrimEnd(before);
    assert |b| > 0 && b[|b| - 1] == ',';
    var x := b[..|b| - 1];
    assert LastIndexOf(x, ',').Some?;
    k := LastIndexOf(x, ',').value;
    assert SplitLine(line).value == LineParts(x[..k], x[k + 1..], t[|t| - PidLen..]);
    assert x[..k] == b[..k] && x[k + 1..] == b[k + 1..|b| - 1];
  }

  lemma Cut(s: string, i: nat)
    requires i <= |s|
    ensures s == s[..i] + s[i..]
  {
  }

  lemma CutAround(s: string, k: nat)
    requires k < |s|
    ensures s == s[..k] + [s[k]] + s[k + 1..]
  {
  }

  /** A name, its series label and episode title, as shown. */
  datatype Names = Names(title: string, series: Option<string>, episode: Option<string>)

  /**
    The series pattern `^((?:Series|Season)\s+\d+)\s*[-:]\s*(.+)$`: the
    label (group 1) and the text after the '-' or ':' (group 2 with the
    whitespace before it). Group 1 starts with a letter and ends with a
    digit, so trimming it changes nothing.
  */
  function SeriesSplit(r: string): (res: Option<(string, string)>)
    ensures res.Some? ==> |res.value.1| > 0 && (StartsWith(res.value.0, "Series") || StartsWith(res.value.0, "Season"))
  {
    if !(StartsWith(r, "Series") || StartsWith(r, "Season")) then None
    else
      var a := RunEnd(r, 6, IsSpace);
      var d := RunEnd(r, a, IsDigit);
      var b := RunEnd(r, d, IsSpace);
      if a == 6 || d == a || b == |r| || !(r[b] == '-' || r[b] == ':') || b + 1 == |r| then None
      else
        assert r[..d][..6] == r[..6];
        Some((r[..d], r[b + 1..]))
  }

  /**
    Every label of the series pattern's shape is recognised: the keyword,
    whitespace, digits, optional whitespace, '-' or ':', and a non-empty
    rest.
  */
  lemma SeriesLabelled(kw: string, ws1: string, ds: string, ws2: string, sep: char, e: string)
    requires kw == "Series" || kw == "Season"
    requires |ws1| > 0 && AllSpace(ws1) && |ds| > 0 && AllDigits(ds) && AllSpace(ws2)
    requires (sep == '-' || sep == ':') && |e| > 0
    ensures SeriesSplit(kw + ws1 + ds + ws2 + [sep] + e) == Some((kw + ws1 + ds, e))
  {
    var head := kw + ws1 + ds;
    var r := head + ws2 + [sep] + e;
    var a, b := 6 + |ws1|, |head| + |ws2|;
    assert RunEnd(r, 6, IsSpace) == a && RunEnd(r, a, IsDigit) == |head| && RunEnd(r, |head|, IsSpace) == b by {
      LabelRuns(kw, ws1, ds, ws2, sep, e, IsSpace, IsDigit);
    }
    LabelParts(kw, ws1, ds, ws2, sep, e);
    SeriesSplitAt(r, a, |head|, b);
  }

  /** Where the keyword, the label, the separator and the rest sit in a label of the series pattern's shape. */
  lemma LabelParts(kw: string, ws1: string, ds: string, ws2: string, sep: char, e: string)
    requires |kw| == 6
    ensures var head := kw + ws1 + ds;
      var r := head + ws2 + [sep] + e;
      StartsWith(r, kw) && r[..|head|] == head && r[|head| + |ws2|] == sep && r[|head| + |ws2| + 1..] == e
  {
    var head := kw + ws1 + ds;
    var r := head + ws2 + [sep] + e;
    var p3 := [sep] + e;
    var p2 := ws2 + p3;
    SeqAssoc(head + ws2, [sep], e);
    SeqAssoc(head, ws2, p3);
    SeqAssoc(kw + ws1, ds, p2);
    SeqAssoc(kw, ws1, ds + p2);
    AppendParts(kw, ws1 + (ds + p2));
    AppendParts(head, p2);
    AppendParts(head + ws2 + [sep], e);
    assert r[|head| + |ws2|] == (head + ws2 + [sep])[|head| + |ws2|];
    assert r[0..6] == r[..6];
  }

  /** The series pattern on a label whose runs end at `a`, `d` and `b`, with '-' or ':' at `b` and text after it. */
  lemma SeriesSplitAt(r: string, a: nat, d: nat, b: nat)
    requires StartsWith(r, "Series") || StartsWith(r, "Season")
    requires 6 < a < d <= b && b + 1 < |r|
    requires RunEnd(r, 6, IsSpace) == a && RunEnd(r, a, IsDigit) == d && RunEnd(r, d, IsSpace) == b
    requires r[b] == '-' || r[b] == ':'
    ensures SeriesSplit(r) == Some((r[..d], r[b + 1..]))
  {
  }

  /**
    Where the runs of the series pattern end in a label of its shape, for
    any classes `sp` (whitespace) and `dg` (digits) that the neighbouring
    parts do not continue.
  */
  lemma LabelRuns(kw: string, ws1: string, ds: string, ws2: string, sep: char, e: string,
                  sp: char -> bool, dg: char -> bool)
    requires |kw| == 6
    requires forall k :: 0 <= k < |ws1| ==> sp(ws1[k])
    requires forall k :: 0 <= k < |ds| ==> dg(ds[k])
    requires forall k :: 0 <= k < |ws2| ==> sp(ws2[k])
    requires |ds| > 0 && !sp(ds[0]) && (|ws2| > 0 ==> !dg(ws2[0]))
    requires !sp(sep) && !dg(sep)
    ensures var r := kw + ws1 + ds + ws2 + [sep] + e;
      RunEnd(r, 6, sp) == 6 + |ws1|
      && RunEnd(r, 6 + |ws1|, dg) == 6 + |ws1| + |ds|
      && RunEnd(r, 6 + |ws1| + |ds|, sp) == 6 + |ws1| + |ds| + |ws2|
  {
    var p3 := [sep] + e;
    var p2 := ws2 + p3;
    var p1 := ds + p2;
    SeqAssoc(kw + ws1 + ds + ws2, [sep], e);
    SeqAssoc(kw + ws1 + ds, ws2, p3);
    SeqAssoc(kw + ws1, ds, p2);
    RunOf(kw, ws1, p1, sp);
    RunOf(kw + ws1, ds, p2, dg);
    RunOf(kw + ws1 + ds, ws2, p3, sp);
  }

  /** The show and what follows it: a series label and an episode, or the whole rest as the episode. */
  function ShowAndRest(show: string, rest: string): (n: Names)
    ensures n.title == show && n.episode.Some?
  {
    match SeriesSplit(rest)
    case Some(sp) => Names(show, Some(sp.0), Some(Trim(sp.1)))
    case None => Names(show, None, Some(rest))
  }

  /** The name split: at the first ": ", else at the first " - ", else the whole name is the title. */
  function SplitName(ne: string): (n: Names)
    ensures n.series.Some? ==> n.episode.Some?
    ensures Find(ne, ": ").None? && Find(ne, " - ").None? ==> n == Names(ne, None, None)
    ensures Find(ne, ": ").Some? || Find(ne, " - ").Some? ==> n.episode.Some?
  {
    match Find(ne, ": ")
    case Some(i) => ShowAndRest(Trim(ne[..i]), Trim(ne[i + 2..]))
    case None =>
      match Find(ne, " - ")
      case Some(i) => ShowAndRest(Trim(ne[..i]), Trim(ne[i + 3..]))
      case None => Names(ne, None, None)
  }

  /** Text that has no whitespace at either end. */
  predicate Trimmed(s: string) {
    |s| > 0 && !IsSpace(s[0]) && !IsSpace(s[|s| - 1])
  }

  /** A pattern found at `i` with no earlier occurrence is what `find` returns. */
  lemma FindIs(s: string, pat: string, i: nat)
    requires Occurs(s, pat, i) && forall j :: 0 <= j < i ==> !Occurs(s, pat, j)
    ensures Find(s, pat) == Some(i)
  {
  }

  /** A pattern whose first character does not occur in `s` is not found. */
  lemma NotFound(s: string, pat: string)
    requires |pat| > 0 && pat[0] !in s
    ensures Find(s, pat).None?
  {
  }

  /** The first ": " after a show title without ':' is the one that follows it. */
  lemma ColonAfterShow(show: string, rest: string)
    requires ':' !in show
    ensures Find(show + ": " + rest, ": ") == Some(|show|)
  {
    var ne := show + ": " + rest;
    forall j | 0 <= j < |show|
      ensures !Occurs(ne, ": ", j)
    {
      assert ne[j] == show[j];
    }
    FindIs(ne, ": ", |show|);
  }

  /** A rest of the form "Series N - Episode" gives the label and the episode. */
  lemma SeriesRest(show: string, n: string, ep: string)
    requires |n| > 0 && AllDigits(n) && Trimmed(ep)
    ensures ShowAndRest(show, "Series " + n + " - " + ep) == Names(show, Some("Series " + n), Some(ep))
  {
    SeriesLabelled("Series", " ", n, " ", '-', " " + ep);
    assert "Series" + " " + n + " " + ['-'] + (" " + ep) == "Series " + n + " - " + ep;
    assert "Series" + " " + n == "Series " + n;
    TrimSpaceLed(" ", ep);
  }

  /** "Show: Series N - Episode", the form most listings use, gives all three parts. */
  lemma ColonSeries(show: string, n: string, ep: string)
    requires Trimmed(show) && ':' !in show && |n| > 0 && AllDigits(n) && Trimmed(ep)
    ensures SplitName(show + ": Series " + n + " - " + ep) == Names(show, Some("Series " + n), Some(ep))
  {
    var rest := "Series " + n + " - " + ep;
    assert show + ": Series " + n + " - " + ep == show + ": " + rest;
    assert rest[0] == 'S' && rest[|rest| - 1] == ep[|ep| - 1];
    ColonSplit(show, rest);
    SeriesRest(show, n, ep);
  }

  /** A trimmed show title without ':', then ": " and trimmed text: split at that ": ". */
  lemma ColonSplit(show: string, rest: string)
    requires Trimmed(show) && ':' !in show && Trimmed(rest)
    ensures SplitName(show + ": " + rest) == ShowAndRest(show, rest)
  {
    var ne := show + ": " + rest;
    ColonAfterShow(show, rest);
    assert ne[..|show|] == show && ne[|show| + 2..] == rest;
    TrimOfTrimmed(show);
    TrimOfTrimmed(rest);
  }

  /** The first " - " after a show title without '-' and not ending in whitespace is the one that follows it. */
  lemma DashAfterShow(show: string, rest: string)
    requires Trimmed(show) && '-' !in show
    ensures Find(show + " - " + rest, " - ") == Some(|show|)
  {
    var ne := show + " - " + rest;
    forall j | 0 <= j < |show|
      ensures !Occurs(ne, " - ", j)
    {
      assert ne[j + 1] == if j + 1 < |show| then show[j + 1] else ' ';
      assert ne[j] == show[j];
    }
    FindIs(ne, " - ", |show|);
  }

  /** "Show - Episode" with no series label: the whole rest is the episode. */
  lemma DashEpisode(show: string, ep: string)
    requires Trimmed(show) && '-' !in show && Trimmed(ep)
    requires ':' !in show && ':' !in ep
    requires !StartsWith(ep, "Series") && !StartsWith(ep, "Season")
    ensures SplitName(show + " - " + ep) == Names(show, None, Some(ep))
  {
    var ne := show + " - " + ep;
    assert ':' !in ne;
    NotFound(ne, ": ");
    DashAfterShow(show, ep);
    assert ne[..|show|] == show && ne[|show| + 3..] == ep;
    TrimOfTrimmed(show);
    TrimOfTrimmed(ep);
  }

  /** One line: an episode, or nothing for a skipped or non-matching line. */
  function ParseLine(line: string, mediaType: string): (r: Option<SearchResult>)
    ensures Skipped(line) || SplitLine(line).None? ==> r.None?
    ensures r.Some? ==> IsPid(r.value.pid) && r.value.channel.Some? && r.value.mediaType == mediaType
  {
    if Skipped(line) then None
    else match SplitLine(line)
      case None => None
      case Some(p) =>
        var n := SplitName(Trim(p.name));
        Some(SearchResult(
          pid := p.pid,
          title := n.title,
          series := n.series,
          episode := n.episode,
          channel := Some(Trim(p.after)),
          mediaType := mediaType,
          thumbnailUrl := None,
          availableUntil := None,
          duration := None,
          description := None))
  }

  /** The line parser for one media type. */
  function Parser(mediaType: string): string -> Option<SearchResult> {
    line => ParseLine(line, mediaType)
  }

  /**
    The episodes of a run of lines, duplicates included, in order. The
    line parser is a parameter so that reasoning about the listing does not
    unfold the line pattern.
  */
  function Candidates(lines: seq<string>, parse: string -> Option<SearchResult>): (r: seq<SearchResult>)
    ensures |r| <= |lines|
  {
    if |lines| == 0 then []
    else
      var last := parse(lines[|lines| - 1]);
      Candidates(lines[..|lines| - 1], parse) + (if last.Some? then [last.value] else [])
  }

  /** The pids among `c`. */
  function PidsOf(c: seq<SearchResult>): (ps: set<string>)
    ensures forall i :: 0 <= i < |c| ==> c[i].pid in ps
  {
    if |c| == 0 then {}
    else
      var ps := PidsOf(c[..|c| - 1]);
      assert forall i :: 0 <= i < |c| - 1 ==> c[..|c| - 1][i] == c[i];
      ps + {c[|c| - 1].pid}
  }

  lemma PidsOfSnoc(c: seq<SearchResult>, x: SearchResult)
    ensures PidsOf(c + [x]) == PidsOf(c) + {x.pid}
  {
    assert (c + [x])[..|c|] == c;
  }

  /** Each pid's first occurrence, in order: the reference the parser's loop is measured against. */
  function FirstOccurrences(c: seq<SearchResult>): (r: seq<SearchResult>)
    ensures PidsOf(r) == PidsOf(c)
  {
    if |c| == 0 then []
    else
      var r := FirstOccurrences(c[..|c| - 1]);
      var x := c[|c| - 1];
      PidsOfSnoc(c[..|c| - 1], x);
      assert c[..|c| - 1] + [x] == c;
      if x.pid in PidsOf(r) then r
      else
        PidsOfSnoc(r, x);
        r + [x]
  }

  /** What one more candidate does to the listing: it is added unless its pid is already there. */
  lemma FirstOccurrencesSnoc(c: seq<SearchResult>, x: SearchResult)
    ensures var r := FirstOccurrences(c);
      FirstOccurrences(c + [x]) == if x.pid in PidsOf(r) then r else r + [x]
  {
    assert (c + [x])[..|c|] == c;
  }

  /** The loop that keeps the first line for each pid, with the pids seen so far in a set. */
  method FirstPerPid(lines: seq<string>, parse: string -> Option<SearchResult>) returns (results: seq<SearchResult>)
    ensures results == FirstOccurrences(Candidates(lines, parse))
  {
    results := [];
    var seen: set<string> := {};
    var i := 0;
    while i < |lines|
      invariant 0 <= i <= |lines|
      invariant results == FirstOccurrences(Candidates(lines[..i], parse))
      invariant seen == PidsOf(results)
    {
      CandidatesStep(lines, i, parse);
      results, seen := Keep(results, seen, parse(lines[i]), Candidates(lines[..i], parse));
      i := i + 1;
    }
    assert lines[..|lines|] == lines;
  }

  /** One parsed line: kept when its pid has not been seen. */
  method Keep(results: seq<SearchResult>, seen: set<string>, r: Option<SearchResult>, ghost c: seq<SearchResult>)
    returns (results': seq<SearchResult>, seen': set<string>)
    requires results == FirstOccurrences(c) && seen == PidsOf(results)
    ensures results' == FirstOccurrences(c + if r.Some? then [r.value] else [])
    ensures seen' == PidsOf(results')
  {
    results', seen' := results, seen;
    if r.Some? {
      FirstOccurrencesSnoc(c, r.value);
      if r.value.pid !in seen {
        PidsOfSnoc(results, r.value);
        seen' := seen + {r.value.pid};
        results' := results + [r.value];
      }
    } else {
      assert c + [] == c;
    }
  }

  lemma CandidatesStep(lines: seq<string>, i: nat, parse: string -> Option<SearchResult>)
    requires i < |lines|
    ensures var last := parse(lines[i]);
      Candidates(lines[..i + 1], parse) == Candidates(lines[..i], parse) + (if last.Some? then [last.value] else [])
  {
    assert lines[..i + 1][..i] == lines[..i];
  }

  /** `parse_pid_recursive_output`: stdout followed directly by stderr, read with `str::lines`. */
  method ParsePidRecursive(stdout: string, stderr: string, mediaType: string) returns (results: seq<SearchResult>)
    ensures results == FirstOccurrences(Candidates(Lines(stdout + stderr), Parser(mediaType)))
  {
    results := FirstPerPid(Lines(stdout + stderr), Parser(mediaType));
  }

  /** The facts the line parser guarantees of its results. */
  predicate WellFormed(mediaType: string, e: SearchResult) {
    IsPid(e.pid) && e.channel.Some? && e.mediaType == mediaType
  }

  /** When every line's result is well formed, so is every candidate. */
  lemma {:induction false} CandidatesAll(lines: seq<string>, parse: string -> Option<SearchResult>, mediaType: string)
    requires forall l :: parse(l).Some? ==> WellFormed(mediaType, parse(l).value)
    ensures forall i :: 0 <= i < |Candidates(lines, parse)| ==> WellFormed(mediaType, Candidates(lines, parse)[i])
  {
    if |lines| > 0 {
      var init := lines[..|lines| - 1];
      CandidatesAll(init, parse, mediaType);
      var c0 := Candidates(init, parse);
      var r := parse(lines[|lines| - 1]);
      var c := Candidates(lines, parse);
      assert c == c0 + (if r.Some? then [r.value] else []);
      forall i | 0 <= i < |c|
        ensures WellFormed(mediaType, c[i])
      {
        if i < |c0| {
          assert c[i] == c0[i];
        } else {
          assert r.Some? && c[i] == r.value;
        }
      }
    }
  }

  /** Every episode listed has a well-formed pid, a channel and the requested media type. */
  lemma CandidatesValid(lines: seq<string>, mediaType: string)
    ensures forall i :: 0 <= i < |Candidates(lines, Parser(mediaType))| ==> WellFormed(mediaType, Candidates(lines, Parser(mediaType))[i])
  {
    forall l | Parser(mediaType)(l).Some?
      ensures WellFormed(mediaType, Parser(mediaType)(l).value)
    {
      var r := ParseLine(l, mediaType);
      assert Parser(mediaType)(l) == r;
    }
    CandidatesAll(lines, Parser(mediaType), mediaType);
  }

  /** No pid is listed twice. */
  lemma {:induction false} FirstOccurrencesDistinct(c: seq<SearchResult>)
    ensures forall i, j :: 0 <= i < j < |FirstOccurrences(c)| ==> FirstOccurrences(c)[i].pid != FirstOccurrences(c)[j].pid
  {
    if |c| > 0 {
      var c' := c[..|c| - 1];
      var x := c[|c| - 1];
      FirstOccurrencesDistinct(c');
      FirstOccurrencesSnoc(c', x);
      assert c' + [x] == c;
      var r := FirstOccurrences(c');
      if x.pid !in PidsOf(r) {
        var r' := r + [x];
        forall i, j | 0 <= i < j < |r'|
          ensures r'[i].pid != r'[j].pid
        {
          if j == |r| {
            assert r'[i] == r[i] && r'[j] == x;
          } else {
            assert r'[i] == r[i] && r'[j] == r[j];
          }
        }
      }
    }
  }

  /** Where the first candidate with pid `p` sits. */
  function FirstWith(c: seq<SearchResult>, p: string): (k: nat)
    requires p in PidsOf(c)
    ensures k < |c| && c[k].pid == p && forall j :: 0 <= j < k ==> c[j].pid != p
  {
    var c' := c[..|c| - 1];
    if p in PidsOf(c') then
      var k := FirstWith(c', p);
      assert forall j :: 0 <= j <= k ==> c[j] == c'[j];
      k
    else
      assert forall j :: 0 <= j < |c'| ==> c[j] == c'[j];
      |c| - 1
  }

  /** Every element of `r` is the first candidate in `c` with its pid. */
  predicate FirstsOf(c: seq<SearchResult>, r: seq<SearchResult>) {
    forall i :: 0 <= i < |r| ==> r[i].pid in PidsOf(c) && r[i] == c[FirstWith(c, r[i].pid)]
  }

  /** Each listed episode is the first candidate for its pid. */
  lemma {:induction false} FirstOccurrencesFirst(c: seq<SearchResult>)
    ensures FirstsOf(c, FirstOccurrences(c))
  {
    if |c| > 0 {
      var c' := c[..|c| - 1];
      var x := c[|c| - 1];
      FirstOccurrencesFirst(c');
      FirstOccurrencesSnoc(c', x);
      assert c' + [x] == c;
      FirstsStep(c', x, FirstOccurrences(c'));
    }
  }

  lemma FirstsStep(c: seq<SearchResult>, x: SearchResult, r: seq<SearchResult>)
    requires FirstsOf(c, r) && PidsOf(r) == PidsOf(c)
    ensures FirstsOf(c + [x], if x.pid in PidsOf(r) then r else r + [x])
  {
    var c2 := c + [x];
    assert c2[..|c|] == c;
    PidsOfSnoc(c, x);
    var r2 := if x.pid in PidsOf(r) then r else r + [x];
    forall i | 0 <= i < |r2|
      ensures r2[i].pid in PidsOf(c2) && r2[i] == c2[FirstWith(c2, r2[i].pid)]
    {
      if i < |r| {
        assert r2[i] == r[i];
        assert FirstWith(c2, r[i].pid) == FirstWith(c, r[i].pid);
      } else {
        assert r2[i] == x && x.pid !in PidsOf(c);
      }
    }
  }

  /** A name with neither ": " nor " - " is the title, with no series or episode. */
  lemma PlainName(line: string, mediaType: string)
    requires !Skipped(line) && SplitLine(line).Some?
    requires var ne := Trim(SplitLine(line).value.name); Find(ne, ": ").None? && Find(ne, " - ").None?
    ensures var r := ParseLine(line, mediaType).value;
      r.title == Trim(SplitLine(line).value.name) && r.series.None? && r.episode.None?
  {
  }
}
