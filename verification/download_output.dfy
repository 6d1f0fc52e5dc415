/**
  What a download makes of the downloader's output once both streams are
  split into lines: the recorded file's path, picked from stdout lines, and
  a bounded buffer of recent lines from either stream, from which the
  failure message is distilled when the process exits unsuccessfully.

  The two streams are read concurrently; `msgs` is the order in which their
  lines were taken. Whether a line is a progress tick is a parameter (the
  progress parser works on floating-point numbers and is not modelled).
*/
module DownloadOutput {
  import opened Wrappers
  import opened Text
  import opened Seqs
  import opened OutputPath
  import Worker

  datatype Stream = Stdout | Stderr

  /** One line as received, with the stream it came from. */
  datatype Msg = Msg(stream: Stream, line: string)

  /** The buffer keeps this many of the most recent lines. */
  const BufferCap: nat := 50

  /** At most the last `n` elements of `s`. */
  function LastN<T>(n: nat, s: seq<T>): (r: seq<T>)
    ensures |r| == if |s| <= n then |s| else n
    ensures r == s[|s| - |r|..]
  {
    if |s| <= n then s else s[|s| - n..]
  }

  /** Lines that are not progress ticks go to the log and the buffer. */
  function Logged(msgs: seq<Msg>, progress: string -> bool): (r: seq<string>)
    ensures |r| <= |msgs|
  {
    if |msgs| == 0 then []
    else
      var m := msgs[|msgs| - 1];
      Logged(msgs[..|msgs| - 1], progress) + (if progress(m.line) then [] else [m.line])
  }

  /**
    The path a line names, if any, as the program extracts it (the capture
    keeps a leading "Recorded "). Lines come from the line splitter and
    never hold a '\n'; the guard only makes the function total.
  */
  function PathIn(line: string): Option<string> {
    if '\n' in line then None else ExtractOutputPathAsWritten(line)
  }

  /** The same with the corrected extraction, which drops the keyword. */
  function PathInCorrected(line: string): Option<string> {
    if '\n' in line then None else ExtractOutputPath(line)
  }

  /** A stdout line that is not a progress tick and names a recorded file. */
  predicate Names(m: Msg, progress: string -> bool, extract: string -> Option<string>) {
    m.stream == Stdout && !progress(m.line) && extract(m.line).Some?
  }

  /**
    The path named by the last stdout line that names one: later lines
    overwrite earlier ones. Keeping the extractor `extract` a parameter
    keeps the pattern's definition out of the reasoning about the loop.
    The program's extractor is `PathIn`.
  */
  function LastPath(msgs: seq<Msg>, progress: string -> bool, extract: string -> Option<string>): (r: Option<string>)
    ensures r.None? <==> forall i :: 0 <= i < |msgs| ==> !Names(msgs[i], progress, extract)
  {
    if |msgs| == 0 then None
    else
      var m := msgs[|msgs| - 1];
      if Names(m, progress, extract) then extract(m.line)
      else
        var r := LastPath(msgs[..|msgs| - 1], progress, extract);
        assert forall i :: 0 <= i < |msgs| - 1 ==> msgs[..|msgs| - 1][i] == msgs[i];
        r
  }

  /**
    The receive loop. Returns the output path ("" when no line named one)
    and the buffer: the last `BufferCap` logged lines, oldest first.
  */
  method Drain(msgs: seq<Msg>, progress: string -> bool, extract: string -> Option<string>) returns (outputPath: string, buffer: seq<string>)
    ensures outputPath == LastPath(msgs, progress, extract).GetOr("")
    ensures buffer == LastN(BufferCap, Logged(msgs, progress))
  {
    outputPath := "";
    buffer := [];
    var i := 0;
    while i < |msgs|
      invariant 0 <= i <= |msgs|
      invariant outputPath == LastPath(msgs[..i], progress, extract).GetOr("")
      invariant buffer == LastN(BufferCap, Logged(msgs[..i], progress))
    {
      assert msgs[..i + 1] == msgs[..i] + [msgs[i]];
      outputPath, buffer := Take(outputPath, buffer, msgs[i], progress, extract, msgs[..i]);
      i := i + 1;
    }
    assert msgs[..|msgs|] == msgs;
  }

  /** One message of the loop: a naming stdout line replaces the path, a logged line is buffered. */
  method Take(outputPath: string, buffer: seq<string>, m: Msg, progress: string -> bool, extract: string -> Option<string>, ghost seen: seq<Msg>)
    returns (path: string, buffered: seq<string>)
    requires outputPath == LastPath(seen, progress, extract).GetOr("")
    requires buffer == LastN(BufferCap, Logged(seen, progress))
    ensures path == LastPath(seen + [m], progress, extract).GetOr("")
    ensures buffered == LastN(BufferCap, Logged(seen + [m], progress))
  {
    ghost var after := seen + [m];
    assert after[..|after| - 1] == seen;
    path, buffered := outputPath, buffer;
    if Names(m, progress, extract) {
      path := extract(m.line).value;
    }
    if !progress(m.line) {
      buffered := Push(buffer, m.line, Logged(seen, progress));
    }
  }

  /**
    Buffering one line: append it, and drop the oldest once there are more
    than `BufferCap`. A window of the last lines of `all` stays one.
  */
  method Push(buffer: seq<string>, l: string, ghost all: seq<string>) returns (r: seq<string>)
    requires buffer == LastN(BufferCap, all)
    ensures r == LastN(BufferCap, all + [l])
  {
    r := buffer + [l];
    if |r| > BufferCap {
      r := r[1..];
      ghost var s := all + [l];
      assert r == s[|s| - BufferCap..];
    }
  }

  /** The buffer never holds more than `BufferCap` lines. */
  lemma BufferBounded(msgs: seq<Msg>, progress: string -> bool)
    ensures |LastN(BufferCap, Logged(msgs, progress))| <= BufferCap
  {
  }

  /** Lines are buffered in arrival order, whichever stream they came from. */
  lemma {:induction false} LoggedAppend(a: seq<Msg>, b: seq<Msg>, progress: string -> bool)
    ensures Logged(a + b, progress) == Logged(a, progress) + Logged(b, progress)
    decreases |b|
  {
    if |b| == 0 {
      assert a + b == a;
    } else {
      assert (a + b)[..|a + b| - 1] == a + b[..|b| - 1];
      LoggedAppend(a, b[..|b| - 1], progress);
    }
  }

  /** The path a line names stands until a later line names another. */
  lemma {:induction false} LastPathOfSplit(a: seq<Msg>, m: Msg, b: seq<Msg>, progress: string -> bool, extract: string -> Option<string>)
    requires Names(m, progress, extract)
    requires forall i :: 0 <= i < |b| ==> !Names(b[i], progress, extract)
    ensures LastPath(a + [m] + b, progress, extract) == extract(m.line)
    decreases |b|
  {
    var s := a + [m] + b;
    if |b| == 0 {
      assert s[|s| - 1] == m;
    } else {
      var b' := b[..|b| - 1];
      assert s[..|s| - 1] == a + [m] + b';
      assert s[|s| - 1] == b[|b| - 1];
      LastPathOfSplit(a, m, b', progress, extract);
    }
  }

  // Distilling the failure message.

  /** The licence advisory is harmless and is never reported. */
  predicate Advisory(u: string) {
    Contains(u, "UK TV LICENCE") || Contains(u, "TV LICENCE IS REQUIRED")
  }

  /** A line that looks like a real error or warning (case-insensitively). */
  predicate Kept(l: string) {
    var u := Upper(l);
    !Advisory(u)
    && (Contains(u, "ERROR") || Contains(u, "WARNING") || Contains(u, "FAILED") || Contains(u, "ABORT"))
  }

  const FallbackLines: nat := 5

  /** The lines reported: every kept line in order, or else the last five buffered lines. */
  function DetailLines(buffer: seq<string>): (r: seq<string>)
    ensures forall l :: l in r ==> l in buffer
    ensures (exists l :: l in buffer && Kept(l)) ==>
      r == Filter(buffer, Kept) && forall l :: l in buffer ==> (l in r <==> Kept(l))
    ensures (forall l :: l in buffer ==> !Kept(l)) ==>
      |r| == (if |buffer| < FallbackLines then |buffer| else FallbackLines)
      && r == buffer[|buffer| - |r|..]
  {
    var d := Filter(buffer, Kept);
    if |d| == 0 then LastN(FallbackLines, buffer)
    else
      assert d[0] in buffer && Kept(d[0]);
      d
  }

  function DetailText(buffer: seq<string>): string {
    Join(DetailLines(buffer), "\n")
  }

  /** The first line of the failure message; a missing exit code (killed by a signal) shows as -1. */
  function Header(code: Option<int>, pid: string): string {
    "get_iplayer exited with status " + IntToString(code.GetOr(-1)) + " for PID " + pid
  }

  /**
    The text `bail!` formats: the header line, a '\n', then the detail. When
    the PID holds no '\n' (every PID the program can download), the first
    '\n' ends the header.
  */
  function FailureMessage(code: Option<int>, pid: string, buffer: seq<string>): (msg: string)
    ensures |msg| == |Header(code, pid)| + 1 + |DetailText(buffer)|
    ensures '\n' !in pid ==> IndexOf(msg, '\n') == Some(|Header(code, pid)|)
    ensures msg[..|Header(code, pid)|] == Header(code, pid)
    ensures msg[|Header(code, pid)|] == '\n'
    ensures msg[|Header(code, pid)| + 1..] == DetailText(buffer)
  {
    LineThenRest(Header(code, pid), DetailText(buffer));
    if '\n' !in pid then
      HeaderOneLine(code, pid);
      Header(code, pid) + "\n" + DetailText(buffer)
    else
      Header(code, pid) + "\n" + DetailText(buffer)
  }

  /** A line, a '\n' and the rest: the parts come back out, and the first '\n' separates them when the line has none. */
  lemma LineThenRest(h: string, t: string)
    ensures var msg := h + "\n" + t;
      msg[..|h|] == h && msg[|h|] == '\n' && msg[|h| + 1..] == t
    ensures '\n' !in h ==> IndexOf(h + "\n" + t, '\n') == Some(|h|)
  {
    var msg := h + "\n" + t;
    assert msg[..|h|] == h;
    assert msg[|h|] == '\n';
    assert msg[|h| + 1..] == t;
    if '\n' !in h {
      IndexOfFirst(msg, '\n', |h|);
    }
  }

  lemma HeaderOneLine(code: Option<int>, pid: string)
    requires '\n' !in pid
    ensures '\n' !in Header(code, pid)
  {
    var i := code.GetOr(-1);
    var digits := if i < 0 then NatToString(-i) else NatToString(i);
    assert '\n' !in digits by {
      assert AllDigits(digits);
    }
  }

  /**
    The result of a download once the process has exited: the output path
    as the program extracts it when it succeeded, else the failure message
    as the error's text.
  */
  function Outcome(succeeded: bool, code: Option<int>, pid: string, msgs: seq<Msg>, progress: string -> bool): (r: Worker.DownloadResult)
    ensures succeeded <==> r.Downloaded?
    ensures r.Downloaded? ==> r.path == LastPath(msgs, progress, PathIn).GetOr("")
    ensures r.DownloadError? ==>
      r.message == FailureMessage(code, pid, LastN(BufferCap, Logged(msgs, progress)))
  {
    var buffer := LastN(BufferCap, Logged(msgs, progress));
    if succeeded then Worker.Downloaded(LastPath(msgs, progress, PathIn).GetOr(""))
    else Worker.DownloadError(FailureMessage(code, pid, buffer))
  }

  /** `Outcome` with the corrected extraction; a failed exit is reported the same way. */
  function OutcomeCorrected(succeeded: bool, code: Option<int>, pid: string, msgs: seq<Msg>, progress: string -> bool): (r: Worker.DownloadResult)
    ensures succeeded <==> r.Downloaded?
    ensures r.Downloaded? ==> r.path == LastPath(msgs, progress, PathInCorrected).GetOr("")
    ensures !succeeded ==> r == Outcome(succeeded, code, pid, msgs, progress)
  {
    if succeeded then Worker.Downloaded(LastPath(msgs, progress, PathInCorrected).GetOr(""))
    else Outcome(succeeded, code, pid, msgs, progress)
  }

  /**
    As written: a download whose stdout says "INFO: Recorded <path>", with no
    later line naming another file, reports "Recorded <path>" as its output.
  */
  lemma RecordedPathIsOutput(a: seq<Msg>, path: string, b: seq<Msg>, progress: string -> bool, code: Option<int>, pid: string)
    requires '\n' !in path && EndsWithExt(path)
    requires !progress("INFO: Recorded " + path)
    requires forall i :: 0 <= i < |b| ==> !Names(b[i], progress, PathIn)
    ensures LastPath(a + [Msg(Stdout, "INFO: Recorded " + path)] + b, progress, PathIn) == Some("Recorded " + path)
    ensures Outcome(true, code, pid, a + [Msg(Stdout, "INFO: Recorded " + path)] + b, progress)
         == Worker.Downloaded("Recorded " + path)
  {
    RecordedLineKeepsKeyword(path);
    LastPathOfSplit(a, Msg(Stdout, "INFO: Recorded " + path), b, progress, PathIn);
  }

  /**
    Corrected: the same download reports `path` itself.
  */
  lemma RecordedPathIsOutputCorrected(a: seq<Msg>, path: string, b: seq<Msg>, progress: string -> bool, code: Option<int>, pid: string)
    requires '\n' !in path && |path| > 0 && !IsSpace(path[0]) && EndsWithExt(path)
    requires !progress("INFO: Recorded " + path)
    requires forall i :: 0 <= i < |b| ==> !Names(b[i], progress, PathInCorrected)
    ensures LastPath(a + [Msg(Stdout, "INFO: Recorded " + path)] + b, progress, PathInCorrected) == Some(path)
    ensures OutcomeCorrected(true, code, pid, a + [Msg(Stdout, "INFO: Recorded " + path)] + b, progress)
         == Worker.Downloaded(path)
  {
    RecordedLineGivesPath(path);
    LastPathOfSplit(a, Msg(Stdout, "INFO: Recorded " + path), b, progress, PathInCorrected);
  }
}
