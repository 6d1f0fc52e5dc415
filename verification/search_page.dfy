/**
  The fallback parser of a rendered search page. Each programme link
  (captured by the anchor patterns as a pid and the anchor's inner HTML)
  becomes a result: the inner HTML is reduced to text, a
  "Duration: …" token is taken out of it, and the rest is split into a
  title and a description. Links to a pid already seen are skipped, and a
  link whose title comes out empty is dropped.
*/
module SearchPage {
  import opened Wrappers
  import opened Text
  import opened Models
  import opened HtmlText

  const DurationKey: string := "Duration:"
  const DescriptionKey: string := " Description: "
  const Stop: string := ". "

  /** What `[^.<]` accepts. */
  predicate ValueChar(c: char) {
    c != '.' && c != '<'
  }

  /** A match of the duration pattern: where it starts, where its capture group starts, and where both end. */
  datatype DurationMatch = DurationMatch(start: nat, groupStart: nat, end: nat)

  /**
    The pattern `Duration:\s*([^.<]+)` tried at `p`. Whitespace is itself
    accepted by `[^.<]`, so the match runs over the whole run of value
    characters after the key and needs at least one of them. The group
    starts after the whitespace; when only whitespace follows the key, the
    greedy `\s*` gives its last character back and that character is the
    group.
  */
  function MatchAt(s: string, p: nat): (m: Option<DurationMatch>)
    ensures m.Some? ==> m.value.start == p && Occurs(s, DurationKey, p)
    ensures m.Some? ==> p + |DurationKey| < m.value.end <= |s| && (m.value.end == |s| || !ValueChar(s[m.value.end]))
    ensures m.Some? ==> forall k :: p + |DurationKey| <= k < m.value.end ==> ValueChar(s[k])
    ensures m.Some? ==> p + |DurationKey| <= m.value.groupStart < m.value.end
  {
    if !Occurs(s, DurationKey, p) then None
    else
      var v := p + |DurationKey|;
      var e := RunEnd(s, v, ValueChar);
      if e == v then None
      else
        var a := RunEnd(s, v, IsSpace);
        assert a <= e by {
          SpacesAreValues(s, v);
        }
        Some(DurationMatch(p, if a < e then a else e - 1, e))
  }

  /** The pattern matches wherever the key is followed by a value character. */
  lemma MatchWhenValueFollows(s: string, p: nat)
    requires p + |DurationKey| < |s| && Occurs(s, DurationKey, p) && ValueChar(s[p + |DurationKey|])
    ensures MatchAt(s, p).Some?
  {
  }

  /** A run of whitespace is a run of value characters. */
  lemma SpacesAreValues(s: string, v: nat)
    requires v <= |s|
    ensures RunEnd(s, v, IsSpace) <= RunEnd(s, v, ValueChar)
  {
  }

  /** The first position at or after `p` where `at` finds something. */
  function Leftmost(s: string, p: nat, at: (string, nat) -> Option<DurationMatch>): (r: Option<nat>)
    requires p <= |s|
    ensures r.Some? ==> p <= r.value <= |s| && at(s, r.value).Some?
    ensures r.Some? ==> forall q :: p <= q < r.value ==> at(s, q).None?
    ensures r.None? ==> forall q :: p <= q <= |s| ==> at(s, q).None?
    decreases |s| - p
  {
    if at(s, p).Some? then Some(p)
    else if p == |s| then None
    else Leftmost(s, p + 1, at)
  }

  /** The leftmost match, as the regex engine reports it. */
  function FirstMatch(s: string): (m: Option<DurationMatch>)
    ensures m.Some? ==> MatchAt(s, m.value.start) == m
    ensures m.Some? ==> forall q :: 0 <= q < m.value.start ==> MatchAt(s, q).None?
    ensures m.None? ==> forall q :: 0 <= q <= |s| ==> MatchAt(s, q).None?
  {
    match Leftmost(s, 0, MatchAt)
    case None => None
    case Some(q) => MatchAt(s, q)
  }

  /** `RE_DURATION.captures(text)`, the group trimmed. */
  function DurationOf(text: string): (d: Option<string>)
    ensures d.Some? <==> FirstMatch(text).Some?
  {
    match FirstMatch(text)
    case None => None
    case Some(m) => Some(Trim(text[m.groupStart..m.end]))
  }

  /** `RE_DURATION.replace(text, "")`: only the first match is removed. */
  function RemoveDuration(text: string): (r: string)
    ensures FirstMatch(text).None? ==> r == text
    ensures FirstMatch(text).Some? ==> |r| < |text| - |DurationKey|
  {
    match FirstMatch(text)
    case None => text
    case Some(m) => text[..m.start] + text[m.end..]
  }

  /**
    A duration token "Duration:" + whitespace + value, with no 'D' before it
    and the value ended by '.', '<' or the end of the text: the value is
    what is reported, and removing the token leaves what was around it.
  */
  lemma DurationToken(pre: string, ws: string, v: string, rest: string)
    requires 'D' !in pre && AllSpace(ws)
    requires |v| > 0 && !IsSpace(v[0]) && !IsSpace(v[|v| - 1]) && forall k :: 0 <= k < |v| ==> ValueChar(v[k])
    requires rest == [] || !ValueChar(rest[0])
    ensures DurationOf(pre + DurationKey + ws + v + rest) == Some(v)
    ensures RemoveDuration(pre + DurationKey + ws + v + rest) == pre + rest
  {
    var s := pre + DurationKey + ws + v + rest;
    var p := |pre|;
    var a := p + |DurationKey| + |ws|;
    var e := a + |v|;
    TokenShape(pre, ws, v, rest);
    TokenIn(s, p, a, e);
    TrimOfTrimmed(v);
  }

  lemma TokenShape(pre: string, ws: string, v: string, rest: string)
    requires 'D' !in pre && AllSpace(ws)
    requires |v| > 0 && !IsSpace(v[0]) && forall k :: 0 <= k < |v| ==> ValueChar(v[k])
    requires rest == [] || !ValueChar(rest[0])
    ensures var s := pre + DurationKey + ws + v + rest;
      var p := |pre|;
      var a := p + |DurationKey| + |ws|;
      var e := a + |v|;
      && Occurs(s, DurationKey, p) && a < e <= |s|
      && (forall q :: 0 <= q < p ==> s[q] != 'D')
      && (forall k :: p + |DurationKey| <= k < a ==> IsSpace(s[k]))
      && (forall k :: a <= k < e ==> ValueChar(s[k]))
      && !IsSpace(s[a]) && (e == |s| || !ValueChar(s[e]))
      && s[a..e] == v && s[..p] == pre && s[e..] == rest
  {
    var s := pre + DurationKey + ws + v + rest;
    var p := |pre|;
    var a := p + |DurationKey| + |ws|;
    var e := a + |v|;
    Pieces(pre, DurationKey, ws, v, rest);
    assert forall k :: p + |DurationKey| <= k < a ==> IsSpace(s[k]);
    assert e == |s| || s[e] == rest[0];
    assert forall q :: 0 <= q < p ==> s[q] == s[..p][q];
  }

  /** The token's shape stated on the text itself: no 'D' before it, the key, whitespace, and the value run. */
  lemma TokenIn(s: string, p: nat, a: nat, e: nat)
    requires Occurs(s, DurationKey, p) && p + |DurationKey| <= a < e <= |s|
    requires forall q :: 0 <= q < p ==> s[q] != 'D'
    requires forall k :: p + |DurationKey| <= k < a ==> IsSpace(s[k])
    requires forall k :: a <= k < e ==> ValueChar(s[k])
    requires !IsSpace(s[a]) && (e == |s| || !ValueChar(s[e]))
    ensures DurationOf(s) == Some(Trim(s[a..e])) && RemoveDuration(s) == s[..p] + s[e..]
  {
    MatchAtRuns(s, p, a, e);
    NoKeyBefore(s, p);
    TokenAt(s, DurationMatch(p, a, e));
  }

  /** Without a 'D' before `p` no match starts before `p`. */
  lemma NoKeyBefore(s: string, p: nat)
    requires p <= |s| && forall q :: 0 <= q < p ==> s[q] != 'D'
    ensures forall q :: 0 <= q < p ==> MatchAt(s, q).None?
  {
    forall q | 0 <= q < p
      ensures !Occurs(s, DurationKey, q)
    {
      if q + |DurationKey| <= |s| {
        assert s[q..q + |DurationKey|][0] == s[q];
      }
    }
  }

  /** What the first match means for the reported duration and for the text left behind. */
  lemma TokenAt(s: string, m: DurationMatch)
    requires MatchAt(s, m.start) == Some(m)
    requires forall q :: 0 <= q < m.start ==> MatchAt(s, q).None?
    ensures DurationOf(s) == Some(Trim(s[m.groupStart..m.end]))
    ensures RemoveDuration(s) == s[..m.start] + s[m.end..]
  {
    FirstMatchIs(s, m);
  }

  /** The parts of a text made of five pieces. */
  lemma Pieces(a: string, b: string, c: string, d: string, e: string)
    ensures var s := a + b + c + d + e;
      var i := |a| + |b| + |c|;
      && s[..|a|] == a && s[|a|..|a| + |b|] == b && s[i..i + |d|] == d && s[i + |d|..] == e
      && (forall k :: |a| + |b| <= k < i ==> s[k] == c[k - |a| - |b|])
      && (forall k :: i <= k < i + |d| ==> s[k] == d[k - i])
  {
  }

  /** The key at `p`, whitespace up to `a`, then a run of non-space value characters up to `e`. */
  lemma MatchAtRuns(s: string, p: nat, a: nat, e: nat)
    requires Occurs(s, DurationKey, p) && p + |DurationKey| <= a < e <= |s|
    requires forall k :: p + |DurationKey| <= k < a ==> IsSpace(s[k])
    requires forall k :: a <= k < e ==> ValueChar(s[k])
    requires !IsSpace(s[a]) && (e == |s| || !ValueChar(s[e]))
    ensures MatchAt(s, p) == Some(DurationMatch(p, a, e))
  {
    var v := p + |DurationKey|;
    RunEndOver(s, v, a - v, IsSpace);
    RunEndOver(s, v, e - v, ValueChar);
  }

  /** A match with none before it is the one reported. */
  lemma FirstMatchIs(s: string, m: DurationMatch)
    requires MatchAt(s, m.start) == Some(m)
    requires forall q :: 0 <= q < m.start ==> MatchAt(s, q).None?
    ensures FirstMatch(s) == Some(m)
  {
  }

  /** `str::replace`: every occurrence of `pat`, leftmost first and without overlap, becomes `rep`. */
  function Replace(s: string, pat: string, rep: string): (r: string)
    requires |pat| > 0
    ensures |rep| <= |pat| ==> |r| <= |s|
    decreases |s|
  {
    if |s| == 0 then []
    else if StartsWith(s, pat) then rep + Replace(s[|pat|..], pat, rep)
    else [s[0]] + Replace(s[1..], pat, rep)
  }

  /** Text where `pat` does not occur is left as it is. */
  lemma {:induction false} ReplaceAbsent(s: string, pat: string, rep: string)
    requires |pat| > 0 && forall i :: !Occurs(s, pat, i)
    ensures Replace(s, pat, rep) == s
    decreases |s|
  {
    if |s| > 0 {
      assert !Occurs(s, pat, 0);
      forall i: nat
        ensures !Occurs(s[1..], pat, i)
      {
        assert !Occurs(s, pat, i + 1);
        if i + |pat| <= |s| - 1 {
          assert s[1..][i..i + |pat|] == s[i + 1..i + 1 + |pat|];
        }
      }
      ReplaceAbsent(s[1..], pat, rep);
      assert s == [s[0]] + s[1..];
    }
  }

  /** The leftmost occurrence is replaced, and replacing goes on after it. */
  lemma {:induction false} ReplaceLeftmost(a: string, b: string, pat: string, rep: string)
    requires |pat| > 0
    requires forall i :: 0 <= i < |a| ==> !Occurs(a + pat + b, pat, i)
    ensures Replace(a + pat + b, pat, rep) == a + rep + Replace(b, pat, rep)
    decreases |a|
  {
    var s := a + pat + b;
    if |a| == 0 {
      assert s == pat + b && s[|pat|..] == b;
      assert StartsWith(s, pat);
    } else {
      var a' := a[1..];
      NoEarlierOccurrence(a, b, pat);
      ReplaceLeftmost(a', b, pat, rep);
      assert !StartsWith(s, pat);
      assert s[1..] == a' + pat + b;
      assert a == [a[0]] + a';
    }
  }

  lemma NoEarlierOccurrence(a: string, b: string, pat: string)
    requires |a| > 0
    requires forall i :: 0 <= i < |a| ==> !Occurs(a + pat + b, pat, i)
    ensures forall i :: 0 <= i < |a| - 1 ==> !Occurs(a[1..] + pat + b, pat, i)
  {
    var s := a + pat + b;
    var t := a[1..] + pat + b;
    assert s[1..] == t;
    forall i | 0 <= i < |a| - 1
      ensures !Occurs(t, pat, i)
    {
      assert !Occurs(s, pat, i + 1);
      assert s[i + 1..i + 1 + |pat|] == t[i..i + |pat|];
    }
  }

  /** `str::trim_end_matches('.')`. */
  function TrimEndDots(s: string): (r: string)
    ensures |r| <= |s| && r == s[..|r|]
    ensures r == [] || r[|r| - 1] != '.'
    ensures forall k :: |r| <= k < |s| ==> s[k] == '.'
  {
    if |s| > 0 && s[|s| - 1] == '.' then
      var r := TrimEndDots(s[..|s| - 1]);
      assert forall k :: |r| <= k < |s| - 1 ==> s[k] == s[..|s| - 1][k];
      r
    else s
  }

  /** `str::trim_start_matches(pat)`: every leading copy of `pat` is dropped. */
  function TrimStartMatches(s: string, pat: string): (r: string)
    requires |pat| > 0
    ensures |r| <= |s| && r == s[|s| - |r|..]
    ensures !StartsWith(r, pat)
    decreases |s|
  {
    if StartsWith(s, pat) then
      var r := TrimStartMatches(s[|pat|..], pat);
      assert s[|pat|..][|s| - |pat| - |r|..] == s[|s| - |r|..];
      r
    else s
  }

  /** A title and the description that may follow it. */
  datatype Heading = Heading(title: string, description: Option<string>)

  /**
    The split as written: at " Description: " when present, else just
    after the first ". ", else none. In the second case the title part ends
    with the separator's space, so stripping trailing dots before trimming
    leaves the separator's '.' on the title.
  */
  function SplitTitleAsWritten(clean: string): (h: Heading)
    ensures h.title == [] || (!IsSpace(h.title[0]) && !IsSpace(h.title[|h.title| - 1]))
  {
    match Find(clean, DescriptionKey)
    case Some(i) => Heading(Trim(TrimEndDots(clean[..i])), Some(Trim(TrimStartMatches(clean[i..], DescriptionKey))))
    case None =>
      match Find(clean, Stop)
      case Some(i) => Heading(Trim(TrimEndDots(clean[..i + 2])), Some(Trim(clean[i + 2..])))
      case None => Heading(Trim(clean), None)
  }

  /** The split with the title cut before the separator's space, so the separator's '.' is stripped. */
  function SplitTitle(clean: string): (h: Heading)
    ensures h.title == [] || (!IsSpace(h.title[0]) && !IsSpace(h.title[|h.title| - 1]))
  {
    match Find(clean, DescriptionKey)
    case Some(i) => Heading(Trim(TrimEndDots(clean[..i])), Some(Trim(TrimStartMatches(clean[i..], DescriptionKey))))
    case None =>
      match Find(clean, Stop)
      case Some(i) => Heading(Trim(TrimEndDots(clean[..i + 1])), Some(Trim(clean[i + 2..])))
      case None => Heading(Trim(clean), None)
  }

  /** A title as the page usually shows it: trimmed, non-empty, without full stops or colons. */
  predicate PlainTitle(t: string) {
    |t| > 0 && !IsSpace(t[0]) && !IsSpace(t[|t| - 1]) && '.' !in t && ':' !in t
  }

  /** A pattern holding a character the text lacks is not found. */
  lemma AbsentFrom(s: string, pat: string, k: nat)
    requires k < |pat| && pat[k] !in s
    ensures Find(s, pat).None?
  {
    forall j: nat
      ensures !Occurs(s, pat, j)
    {
      if j + |pat| <= |s| {
        assert s[j..j + |pat|][k] == s[j + k];
      }
    }
  }

  /** In "T. D", with T plain and D free of colons, the split is at the ". " that follows T. */
  lemma StopAfterTitle(t: string, d: string)
    requires PlainTitle(t) && ':' !in d
    ensures Find(t + Stop + d, DescriptionKey).None?
    ensures Find(t + Stop + d, Stop) == Some(|t|)
  {
    var s := t + Stop + d;
    assert ':' !in s;
    AbsentFrom(s, DescriptionKey, 12);
    assert Occurs(s, Stop, |t|);
    forall j | 0 <= j < |t|
      ensures !Occurs(s, Stop, j)
    {
      assert s[j] == t[j];
    }
  }

  /**
    The split as written keeps the full stop that ends the title: "T. D"
    gives the title "T." rather than "T".
  */
  lemma TitleKeepsStop(t: string, d: string)
    requires PlainTitle(t) && ':' !in d
    ensures SplitTitleAsWritten(t + Stop + d) == Heading(t + ".", Some(Trim(d)))
  {
    var s := t + Stop + d;
    StopAfterTitle(t, d);
    assert s[..|t| + 2] == (t + ".") + " ";
    assert s[|t| + 2..] == d;
    var head := (t + ".") + " ";
    assert TrimEndDots(head) == head;
    TrimStartSpaceLed("", head);
    assert "" + head == head;
    TrimEndOver(t + ".", " ");
  }

  /** The corrected split gives "T. D" back as its title and description. */
  lemma TitleBeforeStop(t: string, d: string)
    requires PlainTitle(t) && ':' !in d
    ensures SplitTitle(t + Stop + d) == Heading(t, Some(Trim(d)))
  {
    var s := t + Stop + d;
    StopAfterTitle(t, d);
    assert s[..|t| + 1] == t + ".";
    assert s[|t| + 2..] == d;
    assert (t + ".")[..|t|] == t;
    assert TrimEndDots(t + ".") == t;
    TrimOfTrimmed(t);
  }

  /** In "T Description: D", with T free of colons, the label is found right after T. */
  lemma DescriptionAfterTitle(t: string, d: string)
    requires ':' !in t
    ensures Find(t + DescriptionKey + d, DescriptionKey) == Some(|t|)
  {
    var s := t + DescriptionKey + d;
    assert Occurs(s, DescriptionKey, |t|);
    forall j | 0 <= j < |t|
      ensures !Occurs(s, DescriptionKey, j)
    {
      assert s[j + 12] != ':' by {
        if j + 12 < |t| {
          assert s[j + 12] == t[j + 12];
        } else {
          assert s[j + 12] == DescriptionKey[j + 12 - |t|];
        }
      }
      assert s[j..j + 14][12] == s[j + 12];
    }
  }

  /** "T Description: D" splits into T and D, the description's label dropped. */
  lemma TitleBeforeDescription(t: string, d: string)
    requires PlainTitle(t) && |d| > 0 && !IsSpace(d[0]) && !IsSpace(d[|d| - 1])
    ensures SplitTitle(t + DescriptionKey + d) == Heading(t, Some(d))
  {
    var s := t + DescriptionKey + d;
    DescriptionAfterTitle(t, d);
    assert s[..|t|] == t;
    assert s[|t|..] == DescriptionKey + d;
    LabelDropped(d);
    PlainUndotted(t);
  }

  /** A plain title is left alone by stripping trailing dots and trimming. */
  lemma PlainUndotted(t: string)
    requires PlainTitle(t)
    ensures Trim(TrimEndDots(t)) == t
  {
    assert TrimEndDots(t) == t;
    TrimOfTrimmed(t);
  }

  lemma LabelDropped(d: string)
    requires |d| > 0 && !IsSpace(d[0]) && !IsSpace(d[|d| - 1])
    ensures Trim(TrimStartMatches(DescriptionKey + d, DescriptionKey)) == d
  {
    assert (DescriptionKey + d)[|DescriptionKey|..] == d;
    assert !StartsWith(d, DescriptionKey);
    TrimOfTrimmed(d);
  }

  /** Text without a 'D' holds no duration token: nothing is reported and nothing removed. */
  lemma NoDurationWithoutKey(text: string)
    requires 'D' !in text
    ensures DurationOf(text).None? && RemoveDuration(text) == text
  {
    NoKeyBefore(text, |text|);
  }

  /** A captured programme link: the pid from its address and the anchor's inner HTML. */
  datatype Anchor = Anchor(pid: string, inner: string)

  /** The link text with the duration token taken out and " . " closed up to ". ", trimmed. */
  function CleanText(text: string): string {
    Trim(Replace(RemoveDuration(text), " . ", ". "))
  }

  /**
    The result one link gives, or nothing when its title comes out empty.
    The title and description are those of the split as written, so a
    "Title. Description" link is titled "Title.".
  */
  function Entry(a: Anchor, images: map<string, string>, mediaType: string): (r: Option<SearchResult>)
    ensures r.None? <==> SplitTitleAsWritten(CleanText(StripHtmlTags(a.inner))).title == ""
    ensures r.Some? ==> r.value.pid == a.pid && r.value.mediaType == mediaType
    ensures r.Some? ==> r.value.title == SplitTitleAsWritten(CleanText(StripHtmlTags(a.inner))).title
    ensures r.Some? ==> |r.value.title| > 0 && !IsSpace(r.value.title[0]) && !IsSpace(r.value.title[|r.value.title| - 1])
    ensures r.Some? ==> r.value.series.None? && r.value.episode.None? && r.value.channel.None? && r.value.availableUntil.None?
    ensures r.Some? ==> r.value.thumbnailUrl == (if a.pid in images then Some(images[a.pid]) else None)
    ensures r.Some? ==> r.value.duration == DurationOf(StripHtmlTags(a.inner))
  {
    var text := StripHtmlTags(a.inner);
    Build(a.pid, SplitTitleAsWritten(CleanText(text)), DurationOf(text), images, mediaType)
  }

  /** `Entry` with the corrected split, which leaves the full stop off the title. */
  function EntryCorrected(a: Anchor, images: map<string, string>, mediaType: string): (r: Option<SearchResult>)
    ensures r.None? <==> SplitTitle(CleanText(StripHtmlTags(a.inner))).title == ""
    ensures r.Some? ==> r.value.pid == a.pid && r.value.mediaType == mediaType
    ensures r.Some? ==> r.value.title == SplitTitle(CleanText(StripHtmlTags(a.inner))).title
    ensures r.Some? ==> r.value.duration == DurationOf(StripHtmlTags(a.inner))
  {
    var text := StripHtmlTags(a.inner);
    Build(a.pid, SplitTitle(CleanText(text)), DurationOf(text), images, mediaType)
  }

  /**
    The two entries differ only through the ". " split: when the link text
    has a " Description: " label, or no ". " at all, they agree.
  */
  lemma EntriesAgreeWithoutStop(a: Anchor, images: map<string, string>, mediaType: string)
    requires var clean := CleanText(StripHtmlTags(a.inner));
      Find(clean, DescriptionKey).Some? || Find(clean, Stop).None?
    ensures Entry(a, images, mediaType) == EntryCorrected(a, images, mediaType)
  {
  }

  /**
    With a ". " split, the program's title is the corrected one followed by
    the full stop, so the stop is kept.
  */
  lemma EntryKeepsStop(a: Anchor, t: string, d: string, images: map<string, string>, mediaType: string)
    requires PlainTitle(t) && ':' !in d
    requires CleanText(StripHtmlTags(a.inner)) == t + Stop + d
    ensures Entry(a, images, mediaType).Some? && Entry(a, images, mediaType).value.title == t + "."
    ensures EntryCorrected(a, images, mediaType).Some? && EntryCorrected(a, images, mediaType).value.title == t
  {
    TitleKeepsStop(t, d);
    TitleBeforeStop(t, d);
  }

  /** The result for a pid, its heading and its duration; none for an empty title. */
  function Build(pid: string, h: Heading, duration: Option<string>, images: map<string, string>, mediaType: string): (r: Option<SearchResult>)
    requires h.title == [] || (!IsSpace(h.title[0]) && !IsSpace(h.title[|h.title| - 1]))
    ensures r.None? <==> h.title == ""
    ensures r.Some? ==> r.value.pid == pid && r.value.mediaType == mediaType
    ensures r.Some? ==> |r.value.title| > 0 && !IsSpace(r.value.title[0]) && !IsSpace(r.value.title[|r.value.title| - 1])
    ensures r.Some? ==> r.value.series.None? && r.value.episode.None? && r.value.channel.None? && r.value.availableUntil.None?
    ensures r.Some? ==> r.value.thumbnailUrl == (if pid in images then Some(images[pid]) else None)
    ensures r.Some? ==> r.value.duration == duration && r.value.title == h.title && r.value.description == h.description
  {
    if h.title == "" then None
    else
      Some(SearchResult(
        pid := pid,
        title := h.title,
        series := None,
        episode := None,
        channel := None,
        mediaType := mediaType,
        thumbnailUrl := if pid in images then Some(images[pid]) else None,
        availableUntil := None,
        duration := duration,
        description := h.description))
  }

  /** `Entry` for one page, as a value the collecting loop can be given. */
  function PageEntry(images: map<string, string>, mediaType: string): Anchor -> Option<SearchResult> {
    a => Entry(a, images, mediaType)
  }

  /** An entry function keeps the link's pid. */
  ghost predicate KeepsPid(entry: Anchor -> Option<SearchResult>) {
    forall a :: entry(a).Some? ==> entry(a).value.pid == a.pid
  }

  lemma PageEntryKeepsPid(images: map<string, string>, mediaType: string)
    ensures KeepsPid(PageEntry(images, mediaType))
  {
  }

  /** The pids of a run of links. */
  function AnchorPids(anchors: seq<Anchor>): (ps: set<string>)
    ensures forall i :: 0 <= i < |anchors| ==> anchors[i].pid in ps
  {
    if |anchors| == 0 then {}
    else
      var pre := anchors[..|anchors| - 1];
      assert forall i :: 0 <= i < |anchors| - 1 ==> pre[i] == anchors[i];
      AnchorPids(pre) + {anchors[|anchors| - 1].pid}
  }

  /**
    The results of a run of links: a link whose pid appeared earlier is
    skipped, whether or not that earlier link gave a result; otherwise its
    entry, if any, is appended.
  */
  function Collect(anchors: seq<Anchor>, entry: Anchor -> Option<SearchResult>): seq<SearchResult> {
    if |anchors| == 0 then []
    else
      var pre := anchors[..|anchors| - 1];
      var last := anchors[|anchors| - 1];
      var r := Collect(pre, entry);
      if last.pid in AnchorPids(pre) then r
      else
        match entry(last)
        case None => r
        case Some(x) => r + [x]
  }

  /** `parse_bbc_search_html` after the links have been captured. */
  method ParseSearchPage(anchors: seq<Anchor>, images: map<string, string>, mediaType: string) returns (results: seq<SearchResult>)
    ensures results == Collect(anchors, PageEntry(images, mediaType))
    ensures forall j :: 0 <= j < |results| ==> results[j].pid in AnchorPids(anchors) && results[j].mediaType == mediaType
    ensures forall j, k :: 0 <= j < k < |results| ==> results[j].pid != results[k].pid
  {
    var entry := PageEntry(images, mediaType);
    results := [];
    var seen: set<string> := {};
    for i := 0 to |anchors|
      invariant seen == AnchorPids(anchors[..i])
      invariant results == Collect(anchors[..i], entry)
    {
      var a := anchors[i];
      CollectStep(anchors, i, entry);
      if a.pid in seen {
        continue;
      }
      seen := seen + {a.pid};
      var r := entry(a);
      if r.None? {
        continue;
      }
      results := results + [r.value];
    }
    assert anchors[..|anchors|] == anchors;
    PageEntryKeepsPid(images, mediaType);
    CollectFromAnchors(anchors, entry);
    CollectDistinct(anchors, entry);
    CollectMediaType(anchors, entry, mediaType);
  }

  lemma {:induction false} CollectMediaType(anchors: seq<Anchor>, entry: Anchor -> Option<SearchResult>, mediaType: string)
    requires forall a :: entry(a).Some? ==> entry(a).value.mediaType == mediaType
    ensures forall j :: 0 <= j < |Collect(anchors, entry)| ==> Collect(anchors, entry)[j].mediaType == mediaType
  {
    if |anchors| > 0 {
      CollectMediaType(anchors[..|anchors| - 1], entry, mediaType);
    }
  }

  lemma CollectStep(anchors: seq<Anchor>, i: nat, entry: Anchor -> Option<SearchResult>)
    requires i < |anchors|
    ensures AnchorPids(anchors[..i + 1]) == AnchorPids(anchors[..i]) + {anchors[i].pid}
    ensures Collect(anchors[..i + 1], entry)
      == if anchors[i].pid in AnchorPids(anchors[..i]) then Collect(anchors[..i], entry)
         else match entry(anchors[i])
           case None => Collect(anchors[..i], entry)
           case Some(x) => Collect(anchors[..i], entry) + [x]
  {
    assert anchors[..i + 1][..i] == anchors[..i];
  }

  /** Every result comes from one of the links. */
  lemma {:induction false} CollectFromAnchors(anchors: seq<Anchor>, entry: Anchor -> Option<SearchResult>)
    requires KeepsPid(entry)
    ensures forall j :: 0 <= j < |Collect(anchors, entry)| ==> Collect(anchors, entry)[j].pid in AnchorPids(anchors)
  {
    if |anchors| > 0 {
      CollectFromAnchors(anchors[..|anchors| - 1], entry);
    }
  }

  /** No pid is listed twice. */
  lemma {:induction false} CollectDistinct(anchors: seq<Anchor>, entry: Anchor -> Option<SearchResult>)
    requires KeepsPid(entry)
    ensures forall j, k :: 0 <= j < k < |Collect(anchors, entry)| ==> Collect(anchors, entry)[j].pid != Collect(anchors, entry)[k].pid
  {
    if |anchors| > 0 {
      var pre := anchors[..|anchors| - 1];
      CollectDistinct(pre, entry);
      CollectFromAnchors(pre, entry);
    }
  }

  /**
    A link whose pid is new and whose title comes out empty still marks its
    pid as seen: no later link to the same pid gives a result.
  */
  lemma {:induction false} EmptyTitleBlocksPid(anchors: seq<Anchor>, i: nat, entry: Anchor -> Option<SearchResult>)
    requires KeepsPid(entry)
    requires i < |anchors| && anchors[i].pid !in AnchorPids(anchors[..i]) && entry(anchors[i]).None?
    ensures forall j :: 0 <= j < |Collect(anchors, entry)| ==> Collect(anchors, entry)[j].pid != anchors[i].pid
  {
    var n := |anchors|;
    var pre := anchors[..n - 1];
    if n - 1 == i {
      assert pre == anchors[..i];
      CollectFromAnchors(pre, entry);
    } else {
      assert pre[..i] == anchors[..i] && pre[i] == anchors[i];
      EmptyTitleBlocksPid(pre, i, entry);
    }
  }

  /** A link whose pid is new and whose entry is a result has that result listed. */
  lemma {:induction false} FirstLinkListed(anchors: seq<Anchor>, i: nat, entry: Anchor -> Option<SearchResult>)
    requires i < |anchors| && anchors[i].pid !in AnchorPids(anchors[..i]) && entry(anchors[i]).Some?
    ensures entry(anchors[i]).value in Collect(anchors, entry)
  {
    var n := |anchors|;
    var pre := anchors[..n - 1];
    if n - 1 == i {
      assert pre == anchors[..i];
    } else {
      assert pre[..i] == anchors[..i] && pre[i] == anchors[i];
      FirstLinkListed(pre, i, entry);
    }
  }
}
