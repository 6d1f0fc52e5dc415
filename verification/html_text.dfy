/**
  Tag stripping for the text of a search-result anchor: every match of
  `<[^>]+>` becomes a space, then the text is split at whitespace and the
  words are joined with single spaces.
*/
module HtmlText {
  import opened Wrappers
  import opened Text

  /**
    Where a tag that starts at `s[0]` ends: `s[0]` is '<', at least one
    character other than '>' follows, and the first '>' after it closes the
    tag. `[^>]+` is greedy and cannot cross a '>', so that '>' is the only
    possible end.
  */
  function TagEnd(s: string): (r: Option<nat>)
    ensures r.Some? ==> 2 <= r.value < |s| && s[0] == '<' && s[r.value] == '>' && '>' !in s[1..r.value]
    ensures r.None? ==> |s| == 0 || s[0] != '<' || (|s| > 1 && s[1] == '>') || '>' !in s[1..]
  {
    if |s| == 0 || s[0] != '<' then None
    else match IndexOf(s[1..], '>')
      case None => None
      case Some(k) =>
        assert s[1..][..k] == s[1..k + 1];
        if k == 0 then None else Some(k + 1)
  }

  /** `replace_all` of the tag pattern with a space, scanning left to right. */
  function ReplaceTags(s: string): (r: string)
    ensures |r| <= |s|
    decreases |s|
  {
    if |s| == 0 then []
    else match TagEnd(s)
      case Some(e) => " " + ReplaceTags(s[e + 1..])
      case None => [s[0]] + ReplaceTags(s[1..])
  }

  predicate NotSpace(c: char) {
    !IsSpace(c)
  }

  /** A word: non-empty and free of whitespace. */
  predicate IsWord(w: string) {
    |w| > 0 && forall k :: 0 <= k < |w| ==> !IsSpace(w[k])
  }

  /** `split_whitespace`: the maximal runs of non-whitespace, in order. */
  function Words(s: string): (ws: seq<string>)
    ensures forall i :: 0 <= i < |ws| ==> IsWord(ws[i])
    decreases |s|
  {
    var t := TrimStart(s);
    if |t| == 0 then []
    else
      var e := RunEnd(t, 0, NotSpace);
      FirstWord(t);
      [t[..e]] + Words(t[e..])
  }

  /** Text that starts with a non-space starts with a word. */
  lemma FirstWord(t: string)
    requires |t| > 0 && !IsSpace(t[0])
    ensures 0 < RunEnd(t, 0, NotSpace) && IsWord(t[..RunEnd(t, 0, NotSpace)])
  {
    var e := RunEnd(t, 0, NotSpace);
    assert forall k :: 0 <= k < e ==> t[..e][k] == t[k];
  }

  /** `strip_html_tags`. */
  function StripHtmlTags(s: string): string {
    Join(Words(ReplaceTags(s)), " ")
  }

  /**
    Text in the form the stripper produces: words separated by single
    spaces, no whitespace at either end and no whitespace other than ' '.
  */
  predicate Normalized(r: string) {
    (|r| == 0 || (!IsSpace(r[0]) && !IsSpace(r[|r| - 1])))
    && forall i :: 0 <= i < |r| && IsSpace(r[i]) ==> r[i] == ' ' && i + 1 < |r| && !IsSpace(r[i + 1])
  }

  /** Words joined with single spaces are normalised. */
  lemma {:induction false} JoinWordsNormalized(ws: seq<string>)
    requires forall i :: 0 <= i < |ws| ==> IsWord(ws[i])
    ensures Normalized(Join(ws, " "))
  {
    if |ws| > 1 {
      JoinWordsNormalized(ws[1..]);
      var rest := Join(ws[1..], " ");
      var r := ws[0] + " " + rest;
      assert Join(ws, " ") == r;
      assert |rest| > 0 && !IsSpace(rest[0]) by {
        JoinStartsWithFirst(ws[1..]);
      }
      forall i | 0 <= i < |r| && IsSpace(r[i])
        ensures r[i] == ' ' && i + 1 < |r| && !IsSpace(r[i + 1])
      {
        if i > |ws[0]| {
          assert r[i] == rest[i - |ws[0]| - 1];
        }
      }
    }
  }

  lemma JoinStartsWithFirst(ws: seq<string>)
    requires |ws| > 0 && IsWord(ws[0])
    ensures |Join(ws, " ")| > 0 && Join(ws, " ")[0] == ws[0][0]
  {
  }

  /** The stripper's output is always normalised. */
  lemma StripNormalized(s: string)
    ensures Normalized(StripHtmlTags(s))
  {
    JoinWordsNormalized(Words(ReplaceTags(s)));
  }

  /** Text without '<' holds no tags: stripping only collapses its whitespace. */
  lemma {:induction false} NoTagsUnchanged(s: string)
    requires '<' !in s
    ensures ReplaceTags(s) == s
    decreases |s|
  {
    if |s| > 0 {
      assert s[0] != '<';
      NoTagsUnchanged(s[1..]);
    }
  }

  /** A '>' survives replacement only where the text had one. */
  lemma {:induction false} CloseSurvives(s: string)
    ensures '>' in ReplaceTags(s) ==> '>' in s
    decreases |s|
  {
    if |s| > 0 {
      match TagEnd(s)
      case Some(e) =>
        CloseSurvives(s[e + 1..]);
        assert '>' in ReplaceTags(s[e + 1..]) ==> s[e + 1..][0] in s || '>' in s[e + 1..];
      case None =>
        CloseSurvives(s[1..]);
    }
  }

  /** A tag starts at `i`: '<', then at least one character other than '>', then a '>'. */
  predicate TagAt(r: string, i: nat) {
    i + 1 < |r| && r[i] == '<' && r[i + 1] != '>' && '>' in r[i + 1..]
  }

  /** No tag is left after replacement. */
  lemma {:induction false} NoTagLeft(s: string)
    ensures forall i :: 0 <= i < |ReplaceTags(s)| ==> !TagAt(ReplaceTags(s), i)
    decreases |s|
  {
    if |s| > 0 {
      var r := ReplaceTags(s);
      match TagEnd(s)
      case Some(e) =>
        NoTagLeft(s[e + 1..]);
        var rest := ReplaceTags(s[e + 1..]);
        assert r == " " + rest;
        forall i | 0 <= i < |r|
          ensures !TagAt(r, i)
        {
          if i > 0 {
            assert r[i..] == rest[i - 1..];
            assert !TagAt(rest, i - 1);
          }
        }
      case None =>
        NoTagLeft(s[1..]);
        var rest := ReplaceTags(s[1..]);
        assert r == [s[0]] + rest;
        forall i | 0 <= i < |r|
          ensures !TagAt(r, i)
        {
          if i > 0 {
            assert r[i..] == rest[i - 1..];
            assert !TagAt(rest, i - 1);
          } else if TagAt(r, 0) {
            FirstKept(s);
          }
        }
    }
  }

  /** A '<' kept at the front is not the start of a tag in the result. */
  lemma FirstKept(s: string)
    requires |s| > 0 && TagEnd(s).None? && s[0] == '<'
    ensures !TagAt(ReplaceTags(s), 0)
  {
    var rest := ReplaceTags(s[1..]);
    if |s| > 1 && s[1] == '>' {
      FrontKept(s[1..]);
    } else {
      CloseSurvives(s[1..]);
    }
  }

  /** Text starting with '>' keeps it at the front. */
  lemma FrontKept(s: string)
    requires |s| > 0 && s[0] == '>'
    ensures |ReplaceTags(s)| > 0 && ReplaceTags(s)[0] == '>'
  {
  }

  /** Splitting words joined with single spaces gives the words back. */
  lemma {:induction false} WordsOfJoin(ws: seq<string>)
    requires forall i :: 0 <= i < |ws| ==> IsWord(ws[i])
    ensures Words(Join(ws, " ")) == ws
  {
    if |ws| == 1 {
      OneWord(ws[0]);
    } else if |ws| > 1 {
      var tail := ws[1..];
      var rest := Join(tail, " ");
      assert Join(ws, " ") == ws[0] + " " + rest;
      JoinStartsWithFirst(tail);
      calc {
        Words(Join(ws, " "));
        Words(ws[0] + " " + rest);
        { WordThenRest(ws[0], rest); }
        [ws[0]] + Words(rest);
        { WordsOfJoin(tail); }
        [ws[0]] + tail;
        ws;
      }
    }
  }

  lemma OneWord(w: string)
    requires IsWord(w)
    ensures Words(w) == [w]
  {
    RunEndOver(w, 0, |w|, NotSpace);
    assert w[|w|..] == [];
    assert w[..|w|] == w;
  }

  lemma WordThenRest(w: string, rest: string)
    requires IsWord(w) && |rest| > 0 && !IsSpace(rest[0])
    ensures Words(w + " " + rest) == [w] + Words(rest)
  {
    var t := w + " " + rest;
    assert t[..|w|] == w;
    assert t[|w|..] == " " + rest;
    WordsAt(t, |w|);
    SkipSpace(rest);
  }

  /** A word followed by whitespace is the first of the words. */
  lemma WordsAt(t: string, j: nat)
    requires 0 < j < |t| && IsSpace(t[j]) && IsWord(t[..j])
    ensures Words(t) == [t[..j]] + Words(t[j..])
  {
    assert forall k :: 0 <= k < j ==> t[k] == t[..j][k];
    RunEndOver(t, 0, j, NotSpace);
    assert TrimStart(t) == t;
  }

  /** One space before text that starts with a word is skipped. */
  lemma SkipSpace(x: string)
    requires |x| > 0 && !IsSpace(x[0])
    ensures Words(" " + x) == Words(x)
  {
    var s := " " + x;
    assert s[1..] == x;
    assert TrimStart(s) == TrimStart(x) == x;
  }

  /** Words without '<' joined with single spaces are left as they are by the stripper. */
  lemma StripJoinedWords(ws: seq<string>)
    requires forall i :: 0 <= i < |ws| ==> IsWord(ws[i]) && '<' !in ws[i]
    ensures StripHtmlTags(Join(ws, " ")) == Join(ws, " ")
  {
    NotInJoin(ws, '<');
    NoTagsUnchanged(Join(ws, " "));
    WordsOfJoin(ws);
  }

  lemma {:induction false} NotInJoin(ws: seq<string>, c: char)
    requires c != ' ' && forall i :: 0 <= i < |ws| ==> c !in ws[i]
    ensures c !in Join(ws, " ")
  {
    if |ws| > 1 {
      NotInJoin(ws[1..], c);
      assert Join(ws, " ") == ws[0] + " " + Join(ws[1..], " ");
    }
  }
}
