/**
  The parser of the downloader's pipe-separated search listing: both output
  streams are concatenated and read line by line; each programme line is
  `pid|title|episode|series|channel|thumbnail|duration|description`, split
  into at most eight fields so that the description keeps any later '|'.
*/
module Listing {
  import opened Wrappers
  import opened Text
  import opened Models

  const Sep := '|'
  const MaxFields := 8

  /** Log lines, banners and empty lines are not programmes. */
  predicate Skipped(line: string) {
    StartsWith(line, "INFO:") || StartsWith(line, "WARNING:") || StartsWith(line, "get_iplayer") || line == ""
  }

  /** An optional field: absent when missing or empty, else trimmed (so blank text gives `Some("")`). */
  function Field(parts: seq<string>, k: nat): (r: Option<string>)
    ensures r.None? <==> k >= |parts| || parts[k] == ""
  {
    if k < |parts| && parts[k] != "" then Some(Trim(parts[k])) else None
  }

  /** One line of the listing: a result, or nothing for a skipped or malformed line. */
  function ParseLine(line: string, mediaType: string): (r: Option<SearchResult>)
    ensures Skipped(line) ==> r.None?
    ensures r.Some? ==> r.value.pid != "" && Sep !in r.value.pid && r.value.mediaType == mediaType
    ensures r.Some? ==> r.value.availableUntil.None?
  {
    if Skipped(line) then None
    else
      var parts := SplitN(line, MaxFields, Sep);
      if |parts| < 2 then None
      else
        var pid := Trim(parts[0]);
        if pid == "" then None
        else
          Some(SearchResult(
            pid := pid,
            title := Trim(parts[1]),
            series := Field(parts, 3),
            episode := Field(parts, 2),
            channel := Field(parts, 4),
            mediaType := mediaType,
            thumbnailUrl := Field(parts, 5),
            availableUntil := None,
            duration := Field(parts, 6),
            description := Field(parts, 7)))
  }

  /** The results of a sequence of lines, in order. */
  function ParseLines(lines: seq<string>, mediaType: string): (r: seq<SearchResult>)
    ensures |r| <= |lines|
  {
    if |lines| == 0 then []
    else
      var rest := ParseLines(lines[1..], mediaType);
      var head := ParseLine(lines[0], mediaType);
      if head.None? then rest else [head.value] + rest
  }

  /** A result as the parser builds it: a non-empty pid without a separator and the requested media type. */
  predicate Programme(res: SearchResult, mediaType: string) {
    res.pid != "" && Sep !in res.pid && res.mediaType == mediaType
  }

  /** Every result is a programme of the requested media type. */
  lemma {:induction false} ParsedAreProgrammes(lines: seq<string>, mediaType: string)
    ensures forall x :: x in ParseLines(lines, mediaType) ==> Programme(x, mediaType)
  {
    if |lines| > 0 {
      ParsedAreProgrammes(lines[1..], mediaType);
    }
  }

  /** `parse_get_iplayer_output`: stdout followed directly by stderr, split with `str::lines`. */
  function ParseListing(stdout: string, stderr: string, mediaType: string): seq<SearchResult> {
    ParseLines(Lines(stdout + stderr), mediaType)
  }

  /** A line with no '|' is not a programme. */
  lemma NoSeparatorNoResult(line: string, mediaType: string)
    requires Sep !in line
    ensures ParseLine(line, mediaType).None?
  {
    if !Skipped(line) {
      assert CountChar(line, Sep) == 0;
      SplitNLength(line, MaxFields, Sep);
    }
  }

  /** The line a result is printed as: the eight fields joined with '|'. */
  function FormatLine(fields: seq<string>): string
    requires |fields| == MaxFields
  {
    Join(fields, [Sep])
  }

  /** A text that starts with a field and then '|' starts with a '|'-free prefix only if the field does. */
  lemma PrefixOfFirstField(pid: string, rest: string, prefix: string)
    requires Sep !in pid && Sep !in prefix
    requires StartsWith(pid + [Sep] + rest, prefix)
    ensures StartsWith(pid, prefix)
  {
    var line := pid + [Sep] + rest;
    assert line[..|prefix|] == prefix;
    assert line[|pid|] == Sep && Sep !in line[..|prefix|];
    assert line[..|prefix|] == pid[..|prefix|];
  }

  /**
    Parsing a printed line gives its fields back: the pid and title trimmed,
    each optional field present exactly when it is non-empty. The
    description may itself hold '|'.
  */
  lemma ParseFormatted(fields: seq<string>, mediaType: string)
    requires |fields| == MaxFields
    requires forall k :: 0 <= k < MaxFields - 1 ==> Sep !in fields[k]
    requires Trim(fields[0]) != ""
    requires !StartsWith(fields[0], "INFO:") && !StartsWith(fields[0], "WARNING:") && !StartsWith(fields[0], "get_iplayer")
    ensures ParseLine(FormatLine(fields), mediaType) == Some(SearchResult(
      pid := Trim(fields[0]),
      title := Trim(fields[1]),
      series := if fields[3] == "" then None else Some(Trim(fields[3])),
      episode := if fields[2] == "" then None else Some(Trim(fields[2])),
      channel := if fields[4] == "" then None else Some(Trim(fields[4])),
      mediaType := mediaType,
      thumbnailUrl := if fields[5] == "" then None else Some(Trim(fields[5])),
      availableUntil := None,
      duration := if fields[6] == "" then None else Some(Trim(fields[6])),
      description := if fields[7] == "" then None else Some(Trim(fields[7]))))
  {
    var line := FormatLine(fields);
    SplitNJoin(fields, Sep);
    assert line == fields[0] + [Sep] + Join(fields[1..], [Sep]);
    NotSkipped(fields[0], Join(fields[1..], [Sep]));
  }

  lemma NotSkipped(pid: string, rest: string)
    requires Sep !in pid
    requires !StartsWith(pid, "INFO:") && !StartsWith(pid, "WARNING:") && !StartsWith(pid, "get_iplayer")
    ensures !Skipped(pid + [Sep] + rest)
  {
    var line := pid + [Sep] + rest;
    if StartsWith(line, "INFO:") {
      PrefixOfFirstField(pid, rest, "INFO:");
    }
    if StartsWith(line, "WARNING:") {
      PrefixOfFirstField(pid, rest, "WARNING:");
    }
    if StartsWith(line, "get_iplayer") {
      PrefixOfFirstField(pid, rest, "get_iplayer");
    }
  }

  /** Blank optional fields are kept as empty text, unlike empty ones. */
  lemma BlankFieldIsEmptyText(parts: seq<string>, k: nat)
    requires k < |parts| && parts[k] != "" && AllSpace(parts[k])
    ensures Field(parts, k) == Some("")
  {
  }

  /** The results of two runs of lines, one after the other. */
  lemma {:induction false} ParseLinesAppend(a: seq<string>, b: seq<string>, mediaType: string)
    ensures ParseLines(a + b, mediaType) == ParseLines(a, mediaType) + ParseLines(b, mediaType)
  {
    if |a| > 0 {
      assert (a + b)[0] == a[0] && (a + b)[1..] == a[1..] + b;
      ParseLinesAppend(a[1..], b, mediaType);
    } else {
      assert a + b == b;
    }
  }

  /** `str::lines` over text that ends a line and more text: the lines of each part. */
  lemma {:induction false} LinesAppend(a: string, b: string)
    requires |a| > 0 && a[|a| - 1] == '\n'
    ensures Lines(a + b) == Lines(a) + Lines(b)
    decreases |a|
  {
    assert a[|a| - 1] in a;
    var i := IndexOf(a, '\n').value;
    var first := [StripCr(a[..i])];
    var rest := a[i + 1..];
    LinesFirst(a, b, i);
    LinesUnfold(a, i);
    if i + 1 < |a| {
      assert rest[|rest| - 1] == '\n';
      LinesAppend(rest, b);
      SeqAssoc(first, Lines(rest), Lines(b));
    } else {
      assert rest + b == b;
      assert Lines(rest) == [];
    }
  }

  /** The first line of `a + b` is that of `a` when `a` holds a '\n'. */
  lemma LinesFirst(a: string, b: string, i: nat)
    requires IndexOf(a, '\n') == Some(i)
    ensures Lines(a + b) == [StripCr(a[..i])] + Lines(a[i + 1..] + b)
  {
    var s := a + b;
    assert s[..i] == a[..i];
    IndexOfFirst(s, '\n', i);
    LinesUnfold(s, i);
    assert s[i + 1..] == a[i + 1..] + b;
  }

  /** When stdout ends its last line, stderr's lines are parsed on their own. */
  lemma StreamsParsedSeparately(stdout: string, stderr: string, mediaType: string)
    requires |stdout| > 0 && stdout[|stdout| - 1] == '\n'
    ensures ParseListing(stdout, stderr, mediaType)
         == ParseLines(Lines(stdout), mediaType) + ParseLines(Lines(stderr), mediaType)
  {
    LinesAppend(stdout, stderr);
    ParseLinesAppend(Lines(stdout), Lines(stderr), mediaType);
  }
}
