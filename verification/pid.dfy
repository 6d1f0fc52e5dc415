/**
  Programme identifiers: eight characters, one of 'b', 'p' or 'm' and then
  seven lower-case letters or digits; and the extractor that finds one in a
  URL or returns a bare one, with the pattern `(?:/|^)([bpm][0-9a-z]{7})(?:[/?#]|$)`
  written out as a scanner.
*/
module Pid {
  import opened Wrappers

  const PidLen: nat := 8

  predicate PidTail(c: char) {
    '0' <= c <= '9' || 'a' <= c <= 'z'
  }

  /** `[bpm][0-9a-z]{7}` on the whole of `p`. */
  predicate IsPid(p: string) {
    |p| == PidLen && (p[0] == 'b' || p[0] == 'p' || p[0] == 'm')
    && forall k :: 1 <= k < PidLen ==> PidTail(p[k])
  }

  /** What may follow the identifier in a URL: a path, query or fragment separator. */
  predicate EndMark(c: char) {
    c == '/' || c == '?' || c == '#'
  }

  /**
    An identifier starts at `c`: it begins the text or follows a '/', and it
    ends the text or is followed by '/', '?' or '#'.
  */
  predicate PidAt(s: string, c: nat) {
    c + PidLen <= |s| && IsPid(s[c..c + PidLen])
    && (c == 0 || s[c - 1] == '/')
    && (c + PidLen == |s| || EndMark(s[c + PidLen]))
  }

  /**
    The leftmost identifier at or after `c`. A match starting at position j
    captures at j + 1 after a '/', or at 0 for the start of the text; a text
    starting with '/' cannot also hold an identifier at 0, so the leftmost
    match is the one with the smallest capture position.
  */
  function PidFrom(s: string, c: nat): (r: Option<nat>)
    requires c <= |s|
    ensures r.Some? ==> c <= r.value && PidAt(s, r.value) && forall j :: c <= j < r.value ==> !PidAt(s, j)
    ensures r.None? ==> forall j :: c <= j ==> !PidAt(s, j)
    decreases |s| - c
  {
    if PidAt(s, c) then Some(c)
    else if c == |s| then None
    else PidFrom(s, c + 1)
  }

  /** `extract_pid`. */
  function ExtractPid(s: string): (r: Option<string>)
    ensures r.Some? <==> exists c: nat :: PidAt(s, c)
    ensures r.Some? ==> IsPid(r.value)
    ensures r.Some? ==> exists c: nat :: PidAt(s, c) && r.value == s[c..c + PidLen] && forall j :: 0 <= j < c ==> !PidAt(s, j)
  {
    match PidFrom(s, 0)
    case None => None
    case Some(c) => Some(s[c..c + PidLen])
  }

  /** A bare identifier is returned as it is. */
  lemma BarePid(p: string)
    requires IsPid(p)
    ensures ExtractPid(p) == Some(p)
  {
    assert p[0..PidLen] == p;
    assert PidAt(p, 0);
  }

  /** The identifier that follows a '/', after no earlier one, is the one returned. */
  lemma PidAfterSlash(pre: string, p: string, post: string)
    requires IsPid(p)
    requires |post| == 0 || EndMark(post[0])
    requires forall j :: 0 <= j <= |pre| ==> !PidAt(pre + "/" + p + post, j)
    ensures ExtractPid(pre + "/" + p + post) == Some(p)
  {
    var s := pre + "/" + p + post;
    var c := |pre| + 1;
    assert s[c..c + PidLen] == p;
    assert s[c - 1] == '/';
    assert c + PidLen == |s| || s[c + PidLen] == post[0];
    assert PidAt(s, c);
    FirstPidIs(s, c);
  }

  lemma FirstPidIs(s: string, c: nat)
    requires PidAt(s, c) && forall j :: 0 <= j < c ==> !PidAt(s, j)
    ensures ExtractPid(s) == Some(s[c..c + PidLen])
  {
  }

  /** An identifier followed by anything other than '/', '?', '#' or the end is not one. */
  lemma NotAtWordEnd(p: string, x: char)
    requires IsPid(p) && !EndMark(x)
    ensures !PidAt(p + [x], 0)
  {
  }
}
