/**
  The raw line splitter both subprocess streams go through: every '\r' or
  '\n' ends the pending line, which is trimmed and passed on unless it is
  empty; the fragment left at end of stream is passed on the same way.

  Characters stand for the stream's bytes: '\r' and '\n' never occur inside
  a multi-byte UTF-8 sequence, so cutting the decoded text at them cuts the
  bytes at the same places.
*/
module LineReader {
  import opened Text

  predicate IsBreak(c: char) {
    c == '\r' || c == '\n'
  }

  /** What a finished buffer contributes: its trimmed text, unless that is empty. */
  function Emit(buf: string): seq<string> {
    if Trim(buf) == [] then [] else [Trim(buf)]
  }

  /** A blank buffer contributes nothing; any other contributes one clean line made of its own characters. */
  lemma EmitFacts(buf: string)
    ensures Emit(buf) == [] <==> AllSpace(buf)
    ensures forall l :: l in Emit(buf) ==> l != [] && Trim(l) == l && forall c :: c in l ==> c in buf
  {
    TrimIdempotent(buf);
  }

  /** The splitter's state: the buffers finished so far, in order, and the pending bytes. */
  datatype Reader = Reader(done: seq<string>, buf: string)

  /** One byte: a break finishes the pending buffer. */
  function Step(st: Reader, c: char): Reader {
    if IsBreak(c) then Reader(st.done + [st.buf], [])
    else Reader(st.done, st.buf + [c])
  }

  /** The state after reading `s` from the start of the stream. */
  function Feed(s: string): Reader {
    if |s| == 0 then Reader([], [])
    else Step(Feed(s[..|s| - 1]), s[|s| - 1])
  }

  /** The concatenation of `f` over `segs`, in order. */
  function Flat(segs: seq<string>, f: string -> seq<string>): seq<string> {
    if |segs| == 0 then [] else Flat(segs[..|segs| - 1], f) + f(segs[|segs| - 1])
  }

  /** The lines a sequence of finished buffers passes on. */
  function EmitAll(segs: seq<string>): seq<string> {
    Flat(segs, Emit)
  }

  /** The lines passed on for a whole stream `s`: the fragment at end of stream counts as finished. */
  function LinesOf(s: string): seq<string> {
    EmitAll(Feed(s).done + [Feed(s).buf])
  }

  lemma {:induction false} FlatAppend(x: seq<string>, y: seq<string>, f: string -> seq<string>)
    ensures Flat(x + y, f) == Flat(x, f) + Flat(y, f)
    decreases |y|
  {
    if |y| == 0 {
      assert x + y == x;
    } else {
      assert (x + y)[..|x + y| - 1] == x + y[..|y| - 1];
      FlatAppend(x, y[..|y| - 1], f);
    }
  }

  lemma EmitAllAppend(x: seq<string>, y: seq<string>)
    ensures EmitAll(x + y) == EmitAll(x) + EmitAll(y)
  {
    FlatAppend(x, y, Emit);
  }

  predicate CleanLine(l: string) {
    l != [] && Trim(l) == l && forall c :: c in l ==> !IsBreak(c)
  }

  /** Finished and pending buffers never hold a break. */
  lemma {:induction false} FeedUnbrokenParts(s: string)
    ensures forall c :: c in Feed(s).buf ==> !IsBreak(c)
    ensures forall k, c :: 0 <= k < |Feed(s).done| && c in Feed(s).done[k] ==> !IsBreak(c)
  {
    if |s| > 0 {
      FeedUnbrokenParts(s[..|s| - 1]);
    }
  }

  lemma {:induction false} EmitAllClean(segs: seq<string>)
    requires forall k, c :: 0 <= k < |segs| && c in segs[k] ==> !IsBreak(c)
    ensures forall l :: l in EmitAll(segs) ==> CleanLine(l)
  {
    if |segs| > 0 {
      EmitAllClean(segs[..|segs| - 1]);
      EmitFacts(segs[|segs| - 1]);
      assert EmitAll(segs) == EmitAll(segs[..|segs| - 1]) + Emit(segs[|segs| - 1]);
    }
  }

  /** Every line passed on is non-empty, already trimmed and free of '\r' and '\n'. */
  lemma LinesAreClean(s: string)
    ensures forall l :: l in LinesOf(s) ==> CleanLine(l)
  {
    FeedUnbrokenParts(s);
    var segs := Feed(s).done + [Feed(s).buf];
    assert forall k :: 0 <= k < |segs| - 1 ==> segs[k] == Feed(s).done[k];
    EmitAllClean(segs);
  }

  /**
    The reader task: `chunks` are the successful reads, in order, up to end
    of stream or the first read error (either ends the loop). Its output is
    the same however the stream was cut into chunks.
  */
  method ReadLines(chunks: seq<string>) returns (lines: seq<string>)
    ensures lines == LinesOf(Concat(chunks))
  {
    lines := [];
    var buf: string := [];
    ghost var consumed: string := [];
    var i := 0;
    while i < |chunks|
      invariant 0 <= i <= |chunks|
      invariant consumed == Concat(chunks[..i])
      invariant lines == EmitAll(Feed(consumed).done) && buf == Feed(consumed).buf
    {
      lines, buf := ReadChunk(lines, buf, chunks[i], consumed);
      ConcatSnoc(chunks, i);
      consumed := consumed + chunks[i];
      i := i + 1;
    }
    assert chunks[..|chunks|] == chunks;
    EmitAllAppend(Feed(consumed).done, [buf]);
    lines := Finish(lines, buf);
  }

  /** The inner loop: the bytes of one read, given the state after the earlier ones. */
  method ReadChunk(lines: seq<string>, buf: string, chunk: string, ghost consumed: string) returns (lines': seq<string>, buf': string)
    requires lines == EmitAll(Feed(consumed).done) && buf == Feed(consumed).buf
    ensures lines' == EmitAll(Feed(consumed + chunk).done) && buf' == Feed(consumed + chunk).buf
  {
    lines', buf' := lines, buf;
    var j := 0;
    ghost var seen := consumed;
    while j < |chunk|
      invariant 0 <= j <= |chunk|
      invariant seen == consumed + chunk[..j]
      invariant lines' == EmitAll(Feed(seen).done) && buf' == Feed(seen).buf
    {
      var c := chunk[j];
      FeedSnoc(seen, c);
      if c == '\r' || c == '\n' {
        lines' := Finish(lines', buf');
        buf' := [];
      } else {
        buf' := buf' + [c];
      }
      PrefixStep(consumed, chunk, j);
      seen := seen + [c];
      j := j + 1;
    }
    assert chunk[..|chunk|] == chunk;
  }

  lemma PrefixStep(consumed: string, chunk: string, j: nat)
    requires j < |chunk|
    ensures consumed + chunk[..j + 1] == consumed + chunk[..j] + [chunk[j]]
  {
    assert chunk[..j + 1] == chunk[..j] + [chunk[j]];
  }

  /** Passing on a finished buffer: nothing when it is empty or blank, else its trimmed text. */
  method Finish(lines: seq<string>, buf: string) returns (r: seq<string>)
    ensures r == lines + Emit(buf)
    ensures |lines| <= |r| <= |lines| + 1
  {
    r := lines;
    if buf != [] {
      var s := Trim(buf);
      if s != [] {
        r := r + [s];
      }
    }
  }

  /** One more byte: a break passes the pending buffer on, anything else joins it. */
  lemma FeedSnoc(p: string, c: char)
    ensures EmitAll(Feed(p + [c]).done)
      == if IsBreak(c) then EmitAll(Feed(p).done) + Emit(Feed(p).buf) else EmitAll(Feed(p).done)
    ensures Feed(p + [c]).buf == if IsBreak(c) then [] else Feed(p).buf + [c]
  {
    assert (p + [c])[..|p|] == p;
    if IsBreak(c) {
      assert EmitAll(Feed(p).done + [Feed(p).buf]) == EmitAll(Feed(p).done) + Emit(Feed(p).buf);
    }
  }

  function Concat(chunks: seq<string>): string {
    if |chunks| == 0 then [] else Concat(chunks[..|chunks| - 1]) + chunks[|chunks| - 1]
  }

  lemma ConcatSnoc(chunks: seq<string>, i: nat)
    requires i < |chunks|
    ensures Concat(chunks[..i + 1]) == Concat(chunks[..i]) + chunks[i]
  {
    assert chunks[..i + 1][..i] == chunks[..i];
  }

  /** A stream with no break in it leaves everything pending. */
  lemma {:induction false} FeedUnbroken(s: string)
    requires forall c :: c in s ==> !IsBreak(c)
    ensures Feed(s) == Reader([], s)
  {
    if |s| > 0 {
      var p, c := s[..|s| - 1], s[|s| - 1];
      assert !IsBreak(c) by {
        assert c in s;
      }
      assert forall x :: x in p ==> !IsBreak(x) by {
        assert forall x :: x in p ==> x in s;
      }
      FeedUnbroken(p);
      assert Feed(s) == Reader([], p + [c]);
      assert p + [c] == s;
    }
  }

  /** After a break the reader starts afresh: what came before is settled. */
  lemma {:induction false} FeedAfterBreak(a: string, t: char, b: string)
    requires IsBreak(t)
    ensures Feed(a + [t] + b) == Reader(Feed(a).done + [Feed(a).buf] + Feed(b).done, Feed(b).buf)
    decreases |b|
  {
    if |b| == 0 {
      assert a + [t] + b == a + [t];
      assert (a + [t])[..|a|] == a;
    } else {
      var b', c := b[..|b| - 1], b[|b| - 1];
      var s, s' := a + [t] + b, a + [t] + b';
      assert s[..|s| - 1] == s' && s[|s| - 1] == c;
      assert Feed(s) == Step(Feed(s'), c);
      assert Feed(b) == Step(Feed(b'), c);
      FeedAfterBreak(a, t, b');
    }
  }

  /**
    The splitter as a reference definition: the lines of `a`, a break of
    either kind, then the lines of `b`. Together with `BlankOrOneLine`
    this determines `LinesOf` on every stream.
  */
  lemma SplitAtBreak(a: string, t: char, b: string)
    requires IsBreak(t)
    ensures LinesOf(a + [t] + b) == LinesOf(a) + LinesOf(b)
  {
    FeedAfterBreak(a, t, b);
    var fa, fb := Feed(a), Feed(b);
    assert fa.done + [fa.buf] + fb.done + [fb.buf] == (fa.done + [fa.buf]) + (fb.done + [fb.buf]);
    EmitAllAppend(fa.done + [fa.buf], fb.done + [fb.buf]);
  }

  /** A stream with no break is one line, or none when it is blank. */
  lemma BlankOrOneLine(s: string)
    requires forall c :: c in s ==> !IsBreak(c)
    ensures LinesOf(s) == Emit(s)
  {
    FeedUnbroken(s);
    assert [] + [s] == [s];
    assert EmitAll([s]) == EmitAll([]) + Emit(s);
  }

  /** "\r\n", "\n\r" and runs of breaks produce no empty lines: a break adds nothing on its own. */
  lemma BreaksAddNothing(a: string, t: char)
    requires IsBreak(t)
    ensures LinesOf(a + [t]) == LinesOf(a)
  {
    SplitAtBreak(a, t, []);
    assert a + [t] + [] == a + [t];
    BlankOrOneLine([]);
    EmitFacts([]);
  }

  /** A final fragment with no terminator is still passed on. */
  lemma TrailingFragmentKept(a: string, t: char, tail: string)
    requires IsBreak(t)
    requires forall c :: c in tail ==> !IsBreak(c)
    requires !AllSpace(tail)
    ensures LinesOf(a + [t] + tail) == LinesOf(a) + [Trim(tail)]
  {
    SplitAtBreak(a, t, tail);
    BlankOrOneLine(tail);
    EmitFacts(tail);
  }
}
