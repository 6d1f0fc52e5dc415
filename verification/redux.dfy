/**
  Locating the application-state object embedded in a search page: the text
  after the `window.__IPLAYER_REDUX_STATE__ =` marker, with leading
  whitespace dropped, is scanned byte by byte, counting braces outside
  double-quoted strings (a backslash inside a string hides the next byte),
  up to the first '}' that brings the depth back to zero.

  The scanner's bytes of interest ('{', '}', '"', '\\') are ASCII, which
  never occurs inside a multi-byte UTF-8 sequence, so the scan is modelled
  on characters.
*/
module Redux {
  import opened Wrappers
  import opened Text

  const ReduxPrefix: string := "window.__IPLAYER_REDUX_STATE__ ="

  /** The scanner's state: brace depth, inside a string, and whether the previous byte was an escaping backslash. */
  datatype ScanState = ScanState(depth: int, inString: bool, escape: bool)

  const Start := ScanState(0, false, false)

  /** The effect of one byte, before the check for the closing brace. */
  function Step(st: ScanState, c: char): (r: ScanState)
    ensures st.escape ==> r == st.(escape := false)
    ensures !st.escape && c != '\\' && c != '"' && c != '{' && c != '}' ==> r == st
    ensures r.depth != st.depth ==> !st.escape && !st.inString && (c == '{' || c == '}')
  {
    if st.escape then st.(escape := false)
    else if c == '\\' && st.inString then st.(escape := true)
    else if c == '"' then st.(inString := !st.inString)
    else if c == '{' && !st.inString then st.(depth := st.depth + 1)
    else if c == '}' && !st.inString then st.(depth := st.depth - 1)
    else st
  }

  /** The state reached from `st` by scanning `t`. */
  function Run(st: ScanState, t: string): ScanState {
    if |t| == 0 then st else Step(Run(st, t[..|t| - 1]), t[|t| - 1])
  }

  /** The state after scanning all of `s` from the start. */
  function StateAfter(s: string): ScanState {
    Run(Start, s)
  }

  /** The byte at `i` is a '}' outside any string that brings the depth from one to zero. */
  predicate ClosesAt(s: string, i: nat) {
    i < |s| && s[i] == '}'
    && var st := StateAfter(s[..i]);
    !st.escape && !st.inString && st.depth == 1
  }

  /** The first closing position at or after `i`. */
  function FirstClose(s: string, i: nat): (r: Option<nat>)
    requires i <= |s|
    ensures r.Some? ==> i <= r.value && ClosesAt(s, r.value) && forall j :: i <= j < r.value ==> !ClosesAt(s, j)
    ensures r.None? ==> forall j :: i <= j < |s| ==> !ClosesAt(s, j)
    decreases |s| - i
  {
    if i == |s| then None
    else if ClosesAt(s, i) then Some(i)
    else FirstClose(s, i + 1)
  }

  /** The length of the object at the start of `tail`: one past the closing brace, or 0 for none. */
  function SpanEnd(tail: string): nat {
    match FirstClose(tail, 0)
    case Some(i) => i + 1
    case None => 0
  }

  /** The brace-counting loop. */
  method ScanObject(tail: string) returns (end: nat)
    ensures end == SpanEnd(tail)
    ensures end > 0 ==> end <= |tail| && tail[end - 1] == '}' && StateAfter(tail[..end]) == Start
  {
    var depth := 0;
    var inString := false;
    var escape := false;
    var i := 0;
    while i < |tail|
      invariant 0 <= i <= |tail|
      invariant ScanState(depth, inString, escape) == StateAfter(tail[..i])
      invariant forall j :: 0 <= j < i ==> !ClosesAt(tail, j)
    {
      var b := tail[i];
      StateStep(tail, i);
      if escape {
        escape := false;
      } else if b == '\\' && inString {
        escape := true;
      } else if b == '"' {
        inString := !inString;
      } else if b == '{' && !inString {
        depth := depth + 1;
      } else if b == '}' && !inString {
        depth := depth - 1;
        if depth == 0 {
          assert ClosesAt(tail, i);
          FirstCloseIs(tail, i);
          return i + 1;
        }
      }
      i := i + 1;
    }
    NoClose(tail);
    return 0;
  }

  lemma StateStep(s: string, i: nat)
    requires i < |s|
    ensures StateAfter(s[..i + 1]) == Step(StateAfter(s[..i]), s[i])
  {
    assert s[..i + 1][..i] == s[..i];
  }

  lemma FirstCloseIs(s: string, i: nat)
    requires ClosesAt(s, i) && forall j :: 0 <= j < i ==> !ClosesAt(s, j)
    ensures SpanEnd(s) == i + 1 && StateAfter(s[..i + 1]) == Start
  {
    StateStep(s, i);
  }

  lemma NoClose(s: string)
    requires forall j :: 0 <= j < |s| ==> !ClosesAt(s, j)
    ensures SpanEnd(s) == 0
  {
  }

  /**
    The embedded object: the marker's first occurrence, the text after it
    with leading whitespace dropped, and the span the scanner delimits;
    nothing when the marker is missing or no brace closes the object.
  */
  method ReduxJson(html: string) returns (json: Option<string>)
    ensures Find(html, ReduxPrefix).None? ==> json.None?
    ensures json == ReduxSpan(html)
  {
    var at := Find(html, ReduxPrefix);
    if at.None? {
      return None;
    }
    var tail := TrimStart(html[at.value + |ReduxPrefix|..]);
    var end := ScanObject(tail);
    if end == 0 {
      return None;
    }
    return Some(tail[..end]);
  }

  /** The reference the scanning method is measured against. */
  function ReduxSpan(html: string): Option<string> {
    match Find(html, ReduxPrefix)
    case None => None
    case Some(i) =>
      var tail := TrimStart(html[i + |ReduxPrefix|..]);
      if SpanEnd(tail) == 0 then None else Some(tail[..SpanEnd(tail)])
  }

  /** The span found is an object: it starts at the text, ends with '}' and leaves every count at rest. */
  lemma SpanIsClosed(tail: string)
    requires SpanEnd(tail) > 0
    ensures var e := SpanEnd(tail);
      e <= |tail| && tail[e - 1] == '}' && StateAfter(tail[..e]) == Start
      && forall j :: 0 <= j < e - 1 ==> !ClosesAt(tail, j)
  {
    var i := FirstClose(tail, 0).value;
    FirstCloseIs(tail, i);
  }

  /** The state after a text depends on that text alone. */
  lemma StateOfPrefix(s: string, t: string, i: nat)
    requires i <= |s|
    ensures StateAfter((s + t)[..i]) == StateAfter(s[..i])
  {
    assert (s + t)[..i] == s[..i];
  }

  /** Whatever follows a complete object does not change where it ends. */
  lemma SpanIgnoresRest(s: string, t: string)
    requires SpanEnd(s) > 0
    ensures SpanEnd(s + t) == SpanEnd(s)
  {
    var i := FirstClose(s, 0).value;
    forall j | 0 <= j <= i
      ensures ClosesAt(s + t, j) == ClosesAt(s, j)
    {
      StateOfPrefix(s, t, j);
    }
    FirstCloseIs(s + t, i);
  }

  /**
    Inside a string, text with no quote and no backslash changes nothing:
    braces there are not counted.
  */
  lemma {:induction false} PlainInString(st: ScanState, x: string)
    requires st.inString && !st.escape
    requires '"' !in x && '\\' !in x
    ensures Run(st, x) == st
    decreases |x|
  {
    if |x| > 0 {
      PlainInString(st, x[..|x| - 1]);
    }
  }

  /** A quoted string with no quote or backslash inside leaves the count where it was. */
  lemma QuotedHidesBraces(st: ScanState, x: string)
    requires !st.inString && !st.escape
    requires '"' !in x && '\\' !in x
    ensures Run(st, "\"" + x + "\"") == st
  {
    var q := "\"" + x + "\"";
    var open := st.(inString := true);
    RunAppend(st, "\"", x + "\"");
    assert Run(st, "\"") == open;
    RunAppend(open, x, "\"");
    PlainInString(open, x);
    assert "\"" + (x + "\"") == q;
  }

  lemma {:induction false} RunAppend(st: ScanState, a: string, b: string)
    ensures Run(st, a + b) == Run(Run(st, a), b)
    decreases |b|
  {
    if |b| == 0 {
      assert a + b == a;
    } else {
      var b' := b[..|b| - 1];
      assert (a + b)[..|a + b| - 1] == a + b';
      RunAppend(st, a, b');
    }
  }

  /** An escaped quote inside a string does not end it. */
  lemma EscapedQuote(st: ScanState)
    requires st.inString && !st.escape
    ensures Run(st, "\\\"") == st
  {
    var e := "\\\"";
    assert e[..1] == "\\" && e[1] == '"';
    assert "\\"[..0] == "";
    assert Run(st, "\\") == st.(escape := true);
  }

  /** A closing brace before any opening one takes the depth below zero and does not end the scan. */
  lemma LeadingCloseIgnored(t: string)
    ensures !ClosesAt("}" + t, 0) && StateAfter(("}" + t)[..1]).depth == -1
  {
    assert ("}" + t)[..1] == "}";
    assert "}"[..0] == "";
  }

  /** Outside a string, text with no brace, quote or backslash changes nothing. */
  lemma {:induction false} PlainOutside(st: ScanState, x: string)
    requires !st.inString && !st.escape
    requires forall k :: 0 <= k < |x| ==> x[k] != '{' && x[k] != '}' && x[k] != '"' && x[k] != '\\'
    ensures Run(st, x) == st
    decreases |x|
  {
    if |x| > 0 {
      PlainOutside(st, x[..|x| - 1]);
    }
  }

  /** An object whose members hold no brace, quote or backslash ends at its own closing brace. */
  lemma FlatObject(body: string, t: string)
    requires forall k :: 0 <= k < |body| ==> body[k] != '{' && body[k] != '}' && body[k] != '"' && body[k] != '\\'
    ensures SpanEnd("{" + body + "}" + t) == |body| + 2
  {
    var s := "{" + body + "}" + t;
    var n := |body| + 1;
    assert s[..n] == "{" + body;
    RunAppend(Start, "{", body);
    assert Run(Start, "{") == ScanState(1, false, false) by {
      assert "{"[..0] == "";
    }
    PlainOutside(ScanState(1, false, false), body);
    assert ClosesAt(s, n);
    forall j | 0 <= j < n
      ensures !ClosesAt(s, j)
    {
      assert s[j] == if j == 0 then '{' else body[j - 1];
    }
    FirstCloseIs(s, n);
  }

  /** A brace inside a string value is not counted: the object ends after the string. */
  lemma StringValuedObject(x: string, t: string)
    requires '"' !in x && '\\' !in x
    ensures SpanEnd("{\"" + x + "\"}" + t) == |x| + 4
  {
    var s := "{\"" + x + "\"}" + t;
    var open := ScanState(1, true, false);
    assert Run(Start, "{\"") == open by {
      var o := "{\"";
      assert o[..1] == "{" && o[1] == '"' && "{"[..0] == "";
    }
    forall j | 0 <= j < |x| + 3
      ensures !ClosesAt(s, j)
    {
      if 2 <= j <= |x| + 2 {
        assert s[..j] == "{\"" + x[..j - 2];
        RunAppend(Start, "{\"", x[..j - 2]);
        assert forall c :: c in x[..j - 2] ==> c in x;
        PlainInString(open, x[..j - 2]);
        if j == |x| + 2 {
          assert s[j] == '"';
        }
      } else {
        assert s[j] == if j == 0 then '{' else '"';
      }
    }
    var n := |x| + 3;
    assert s[..n] == "{\"" + x + "\"";
    RunAppend(Start, "{\"", x + "\"");
    RunAppend(open, x, "\"");
    PlainInString(open, x);
    assert Run(open, "\"") == ScanState(1, false, false) by {
      assert "\""[..0] == "";
    }
    assert "{\"" + (x + "\"") == "{\"" + x + "\"";
    assert ClosesAt(s, n);
    FirstCloseIs(s, n);
  }
}
