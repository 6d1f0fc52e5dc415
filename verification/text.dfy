/**
  String helpers with the semantics of the Rust standard-library calls the
  backend uses: `trim`, `find`, `splitn`, `lines`, `len` (UTF-8 bytes),
  integer formatting and `u32::from_str`.
*/
module Text {
  import opened Wrappers

  /** Unicode White_Space: what `char::is_whitespace`, `str::trim` and the regex class `\s` accept. */
  predicate IsSpace(c: char) {
    || ('\t' <= c <= '\r')
    || c == ' '
    || c == '\U{0085}'
    || c == '\U{00A0}'
    || c == '\U{1680}'
    || ('\U{2000}' <= c <= '\U{200A}')
    || c == '\U{2028}'
    || c == '\U{2029}'
    || c == '\U{202F}'
    || c == '\U{205F}'
    || c == '\U{3000}'
  }

  predicate AllSpace(s: string) {
    forall i :: 0 <= i < |s| ==> IsSpace(s[i])
  }

  /** `str::trim_start`: drop the leading whitespace. */
  function TrimStart(s: string): (r: string)
    ensures |r| <= |s| && r == s[|s| - |r|..]
    ensures AllSpace(s[..|s| - |r|])
    ensures r == [] || !IsSpace(r[0])
  {
    if |s| > 0 && IsSpace(s[0]) then
      var r := TrimStart(s[1..]);
      assert s[1..][|s| - 1 - |r|..] == s[|s| - |r|..];
      assert forall i :: 1 <= i < |s| - |r| ==> s[i] == s[1..][..|s| - 1 - |r|][i - 1];
      r
    else s
  }

  /** `str::trim_end`: drop the trailing whitespace. */
  function TrimEnd(s: string): (r: string)
    ensures |r| <= |s| && r == s[..|r|]
    ensures AllSpace(s[|r|..])
    ensures r == [] || !IsSpace(r[|r| - 1])
  {
    if |s| > 0 && IsSpace(s[|s| - 1]) then
      var r := TrimEnd(s[..|s| - 1]);
      assert forall i :: |r| <= i < |s| - 1 ==> s[i] == s[..|s| - 1][|r|..][i - |r|];
      r
    else s
  }

  /** `str::trim`: drop whitespace at both ends. */
  function Trim(s: string): (r: string)
    ensures |r| <= |s|
    ensures forall c :: c in r ==> c in s
    ensures r == [] || (!IsSpace(r[0]) && !IsSpace(r[|r| - 1]))
    ensures r == [] <==> AllSpace(s)
  {
    var t := TrimStart(s);
    var r := TrimEnd(t);
    assert forall c :: c in r ==> c in t;
    assert forall c :: c in t ==> c in s;
    assert r == [] ==> AllSpace(s) by {
      if r == [] {
        assert AllSpace(t);
        assert s == s[..|s| - |t|] + t;
      }
    }
    r
  }

  lemma {:induction false} TrimOfTrimmed(s: string)
    requires s == [] || (!IsSpace(s[0]) && !IsSpace(s[|s| - 1]))
    ensures Trim(s) == s
  {
  }

  lemma {:induction false} TrimStartSpaceLed(w: string, x: string)
    requires AllSpace(w) && (x == [] || !IsSpace(x[0]))
    ensures TrimStart(w + x) == x
  {
    if |w| == 0 {
      assert w + x == x;
    } else {
      assert (w + x)[1..] == w[1..] + x;
      TrimStartSpaceLed(w[1..], x);
    }
  }

  /** Leading whitespace in front of already-trimmed text is all `trim` removes. */
  lemma TrimSpaceLed(w: string, x: string)
    requires AllSpace(w) && (x == [] || (!IsSpace(x[0]) && !IsSpace(x[|x| - 1])))
    ensures Trim(w + x) == x
  {
    TrimStartSpaceLed(w, x);
  }

  /** Text ending in a non-space keeps its end under `trim`: the result is a non-empty suffix. */
  lemma TrimKeepsLast(x: string)
    requires |x| > 0 && !IsSpace(x[|x| - 1])
    ensures |Trim(x)| > 0 && Trim(x) == TrimStart(x) && Trim(x) == x[|x| - |Trim(x)|..]
  {
    var t := TrimStart(x);
    assert t[|t| - 1] == x[|x| - 1];
  }

  /** A run of non-whitespace at the end of `x` survives `trim` unchanged. */
  lemma SuffixSurvivesTrim(x: string, n: nat)
    requires 0 < n <= |x|
    requires forall i :: |x| - n <= i < |x| ==> !IsSpace(x[i])
    ensures n <= |Trim(x)| && Trim(x)[|Trim(x)| - n..] == x[|x| - n..]
  {
    TrimKeepsLast(x);
    var t := Trim(x);
    assert forall i :: 0 <= i < |x| - |t| ==> IsSpace(x[i]) by {
      assert AllSpace(x[..|x| - |t|]);
      assert forall i :: 0 <= i < |x| - |t| ==> x[..|x| - |t|][i] == x[i];
    }
    assert !IsSpace(x[|x| - n]);
  }

  /** Trailing whitespace after a non-space character is exactly what `trim_end` removes. */
  lemma {:induction false} TrimEndOver(x: string, w: string)
    requires |x| > 0 && !IsSpace(x[|x| - 1]) && AllSpace(w)
    ensures TrimEnd(x + w) == x
    decreases |w|
  {
    if |w| > 0 {
      var s := x + w;
      assert s[..|s| - 1] == x + w[..|w| - 1];
      TrimEndOver(x, w[..|w| - 1]);
    } else {
      assert x + w == x;
    }
  }

  lemma TrimIdempotent(s: string)
    ensures Trim(Trim(s)) == Trim(s)
  {
    TrimOfTrimmed(Trim(s));
  }

  /** `pat` occurs in `s` starting at index `i`. */
  predicate Occurs(s: string, pat: string, i: nat) {
    i + |pat| <= |s| && s[i..i + |pat|] == pat
  }

  /** `str::starts_with`. */
  predicate StartsWith(s: string, prefix: string) {
    Occurs(s, prefix, 0)
  }

  function FindFrom(s: string, pat: string, i: nat): (r: Option<nat>)
    requires i <= |s|
    ensures r.Some? ==> i <= r.value && Occurs(s, pat, r.value)
    ensures r.Some? ==> forall j :: i <= j < r.value ==> !Occurs(s, pat, j)
    ensures r.None? ==> forall j :: i <= j ==> !Occurs(s, pat, j)
    decreases |s| - i
  {
    if Occurs(s, pat, i) then Some(i)
    else if i == |s| then None
    else FindFrom(s, pat, i + 1)
  }

  /** `str::find`: the first index where `pat` occurs. */
  function Find(s: string, pat: string): (r: Option<nat>)
    ensures r.Some? ==> Occurs(s, pat, r.value) && forall j :: 0 <= j < r.value ==> !Occurs(s, pat, j)
    ensures r.None? ==> forall j :: !Occurs(s, pat, j)
  {
    FindFrom(s, pat, 0)
  }

  predicate Contains(s: string, pat: string) {
    Find(s, pat).Some?
  }

  /** The first index of character `c`. */
  function IndexOf(s: string, c: char): (r: Option<nat>)
    ensures r.Some? ==> r.value < |s| && s[r.value] == c && c !in s[..r.value]
    ensures r.None? ==> c !in s
  {
    if |s| == 0 then None
    else if s[0] == c then Some(0)
    else match IndexOf(s[1..], c)
      case None => None
      case Some(i) =>
        assert s[..i + 1] == [s[0]] + s[1..][..i];
        Some(i + 1)
  }

  /** The last index of character `c`. */
  function LastIndexOf(s: string, c: char): (r: Option<nat>)
    ensures r.Some? ==> r.value < |s| && s[r.value] == c && c !in s[r.value + 1..]
    ensures r.None? ==> c !in s
  {
    if |s| == 0 then None
    else if s[|s| - 1] == c then Some(|s| - 1)
    else
      var r := LastIndexOf(s[..|s| - 1], c);
      assert r.Some? ==> s[r.value + 1..] == s[..|s| - 1][r.value + 1..] + [s[|s| - 1]];
      r
  }

  /** The last `c` is the one after which no `c` follows. */
  lemma LastIndexOfAt(a: string, c: char, b: string)
    requires c !in b
    ensures LastIndexOf(a + [c] + b, c) == Some(|a|)
  {
    var s := a + [c] + b;
    assert s[|a|] == c;
    assert s[|a| + 1..] == b;
  }

  /** `parts` joined with `sep` between consecutive parts. */
  function Join(parts: seq<string>, sep: string): string {
    if |parts| == 0 then ""
    else if |parts| == 1 then parts[0]
    else parts[0] + sep + Join(parts[1..], sep)
  }

  /**
    `str::splitn(n, c)`: at most `n` parts; all parts but the last are free
    of `c`, and the last keeps every later `c`.
  */
  function SplitN(s: string, n: nat, c: char): (parts: seq<string>)
    ensures n == 0 <==> parts == []
    ensures |parts| <= n
    ensures forall k :: 0 <= k < |parts| - 1 ==> c !in parts[k]
    ensures 0 < |parts| < n ==> c !in parts[|parts| - 1]
    ensures n > 0 ==> Join(parts, [c]) == s
    decreases n
  {
    if n == 0 then []
    else if n == 1 then [s]
    else match IndexOf(s, c)
      case None => [s]
      case Some(i) =>
        var rest := SplitN(s[i + 1..], n - 1, c);
        assert s == s[..i] + [c] + s[i + 1..];
        ([s[..i]] + rest)
  }

  /** Split at every occurrence of `c`. */
  function SplitAll(s: string, c: char): (parts: seq<string>)
    ensures |parts| >= 1
    ensures forall k :: 0 <= k < |parts| ==> c !in parts[k]
    ensures Join(parts, [c]) == s
    decreases |s|
  {
    match IndexOf(s, c)
    case None => [s]
    case Some(i) =>
      var rest := SplitAll(s[i + 1..], c);
      assert s == s[..i] + [c] + s[i + 1..];
      [s[..i]] + rest
  }

  function CountChar(s: string, c: char): nat {
    multiset(s)[c]
  }

  /** The first occurrence of `c` is where `IndexOf` stops. */
  lemma {:induction false} IndexOfFirst(s: string, c: char, i: nat)
    requires i < |s| && s[i] == c && c !in s[..i]
    ensures IndexOf(s, c) == Some(i)
  {
    if i > 0 {
      assert s[0] in s[..i];
      assert s[1..][..i - 1] == s[1..i];
      IndexOfFirst(s[1..], c, i - 1);
    }
  }

  lemma CountAround(a: string, b: string, c: char)
    requires c !in a
    ensures CountChar(a + [c] + b, c) == CountChar(b, c) + 1
  {
    assert multiset(a + [c] + b) == multiset(a) + multiset([c]) + multiset(b);
    assert multiset(a)[c] == 0;
  }

  lemma SplitNUnfold(s: string, n: nat, c: char, i: nat)
    requires n > 1 && IndexOf(s, c) == Some(i)
    ensures SplitN(s, n, c) == [s[..i]] + SplitN(s[i + 1..], n - 1, c)
  {
  }

  /** `splitn(n, c)` yields one part more than there are separators, capped at `n`. */
  lemma {:induction false} SplitNLength(s: string, n: nat, c: char)
    requires n > 0
    ensures |SplitN(s, n, c)| == if CountChar(s, c) + 1 < n then CountChar(s, c) + 1 else n
    decreases n
  {
    if n > 1 {
      var r := IndexOf(s, c);
      if r.None? {
        assert multiset(s)[c] == 0;
        assert SplitN(s, n, c) == [s];
      } else {
        var i := r.value;
        var a, b := s[..i], s[i + 1..];
        assert CountChar(s, c) == CountChar(b, c) + 1 by {
          assert s == a + [c] + b;
          CountAround(a, b, c);
        }
        assert |SplitN(s, n, c)| == 1 + |SplitN(b, n - 1, c)| by {
          SplitNUnfold(s, n, c, i);
        }
        SplitNLength(b, n - 1, c);
      }
    }
  }

  /** `splitn` into exactly as many parts as were joined gives the parts back; only the last may hold `c`. */
  lemma {:induction false} SplitNJoin(parts: seq<string>, c: char)
    requires |parts| >= 1
    requires forall k :: 0 <= k < |parts| - 1 ==> c !in parts[k]
    ensures SplitN(Join(parts, [c]), |parts|, c) == parts
    decreases |parts|
  {
    if |parts| > 1 {
      var a, rest := parts[0], Join(parts[1..], [c]);
      var s := Join(parts, [c]);
      assert s == a + [c] + rest;
      assert s[..|a|] == a;
      IndexOfFirst(s, c, |a|);
      assert s[|a| + 1..] == rest;
      SplitNUnfold(s, |parts|, c, |a|);
      SplitNJoin(parts[1..], c);
      assert parts == [a] + parts[1..];
    }
  }

  /** Splitting `a:b:rest` with `a` and `b` separator-free into three parts. */
  lemma SplitNThree(a: string, b: string, rest: string, c: char)
    requires c !in a && c !in b
    ensures SplitN(a + [c] + b + [c] + rest, 3, c) == [a, b, rest]
  {
    var s := a + [c] + b + [c] + rest;
    assert s[..|a|] == a;
    IndexOfFirst(s, c, |a|);
    var t := s[|a| + 1..];
    assert t == b + [c] + rest;
    assert t[..|b|] == b;
    IndexOfFirst(t, c, |b|);
    assert t[|b| + 1..] == rest;
  }

  /** Bytes in the UTF-8 encoding of one character. */
  function Utf8Width(c: char): nat {
    if (c as int) < 0x80 then 1
    else if (c as int) < 0x800 then 2
    else if (c as int) < 0x10000 then 3
    else 4
  }

  /** `String::len`: the length of the UTF-8 encoding in bytes. */
  function Utf8Len(s: string): (n: nat)
    ensures |s| <= n <= 4 * |s|
  {
    if |s| == 0 then 0 else Utf8Len(s[..|s| - 1]) + Utf8Width(s[|s| - 1])
  }

  lemma {:induction false} Utf8LenAscii(s: string)
    requires forall i :: 0 <= i < |s| ==> (s[i] as int) < 0x80
    ensures Utf8Len(s) == |s|
  {
    if |s| > 0 {
      Utf8LenAscii(s[..|s| - 1]);
    }
  }

  /** The byte length equals the character count exactly for ASCII text. */
  lemma {:induction false} Utf8LenIsCountIffAscii(s: string)
    ensures Utf8Len(s) == |s| <==> forall i :: 0 <= i < |s| ==> (s[i] as int) < 0x80
  {
    if |s| > 0 {
      var p := s[..|s| - 1];
      Utf8LenIsCountIffAscii(p);
      if forall i :: 0 <= i < |s| ==> (s[i] as int) < 0x80 {
        assert forall i :: 0 <= i < |p| ==> (p[i] as int) < 0x80 by {
          forall i | 0 <= i < |p| ensures (p[i] as int) < 0x80 { assert p[i] == s[i]; }
        }
      } else {
        var j :| 0 <= j < |s| && (s[j] as int) >= 0x80;
        if j < |p| {
          assert p[j] == s[j];
        }
      }
    }
  }

  /** ASCII upper-casing of one character. */
  function UpperChar(c: char): char {
    if 'a' <= c <= 'z' then (c as int - 32) as char else c
  }

  function Upper(s: string): (r: string)
    ensures |r| == |s|
  {
    seq(|s|, i requires 0 <= i < |s| => UpperChar(s[i]))
  }

  predicate IsDigit(c: char) {
    '0' <= c <= '9'
  }

  predicate AllDigits(s: string) {
    forall i :: 0 <= i < |s| ==> IsDigit(s[i])
  }

  function DigitChar(d: nat): (c: char)
    requires d < 10
    ensures IsDigit(c)
  {
    ('0' as int + d) as char
  }

  function DigitValue(c: char): (d: nat)
    requires IsDigit(c)
    ensures d < 10 && DigitChar(d) == c
  {
    c as int - '0' as int
  }

  /** Decimal rendering of a natural number (Rust `{}` on an unsigned integer). */
  function NatToString(n: nat): (s: string)
    ensures |s| >= 1 && AllDigits(s)
    ensures (n == 0) == (s[0] == '0')
  {
    if n < 10 then [DigitChar(n)] else NatToString(n / 10) + [DigitChar(n % 10)]
  }

  /** Decimal rendering of an integer, with a leading '-' for negatives. */
  function IntToString(i: int): (s: string)
    ensures |s| >= 1 && ':' !in s && '|' !in s
  {
    if i < 0 then "-" + NatToString(-i) else NatToString(i)
  }

  /** `{:02}`: zero-padded to at least two digits. */
  function Pad2(n: nat): (s: string)
    ensures |s| >= 2 && AllDigits(s)
  {
    if n < 10 then "0" + NatToString(n) else NatToString(n)
  }

  /** The value of a run of decimal digits (leading zeros allowed). */
  function DigitsValue(s: string): nat
    requires AllDigits(s)
  {
    if |s| == 0 then 0 else 10 * DigitsValue(s[..|s| - 1]) + DigitValue(s[|s| - 1])
  }

  function ParseDigits(s: string): (r: Option<nat>)
    ensures r.Some? <==> |s| > 0 && AllDigits(s)
  {
    if |s| > 0 && AllDigits(s) then Some(DigitsValue(s)) else None
  }

  lemma {:induction false} DigitsValueOfNat(n: nat)
    ensures DigitsValue(NatToString(n)) == n
  {
    if n >= 10 {
      DigitsValueOfNat(n / 10);
      var s := NatToString(n);
      assert s[..|s| - 1] == NatToString(n / 10);
    }
  }

  lemma ParseDigitsOfNat(n: nat)
    ensures ParseDigits(NatToString(n)) == Some(n)
  {
    DigitsValueOfNat(n);
  }

  const U32_MAX: nat := 0xFFFF_FFFF

  /**
    `u32::from_str`: an optional '+' followed by at least one ASCII digit,
    with a value that fits in 32 bits. No sign other than '+', no whitespace.
  */
  function ParseU32(s: string): (r: Option<nat>)
    ensures r.Some? ==> r.value <= U32_MAX
    ensures r.Some? ==> |s| > 0 && (s[0] == '+' || IsDigit(s[0]))
    ensures (exists i :: 0 <= i < |s| && s[i] == '-') ==> r.None?
  {
    var digits := if |s| > 0 && s[0] == '+' then s[1..] else s;
    match ParseDigits(digits)
    case Some(v) => if v <= U32_MAX then Some(v) else None
    case None => None
  }

  lemma ParseU32OfNat(n: nat)
    requires n <= U32_MAX
    ensures ParseU32(NatToString(n)) == Some(n)
  {
    ParseDigitsOfNat(n);
  }

  /** Drop one trailing '\r' (the "\r\n" terminator case of `str::lines`). */
  function StripCr(l: string): string {
    if |l| > 0 && l[|l| - 1] == '\r' then l[..|l| - 1] else l
  }

  /**
    `str::lines`: split after each '\n', dropping a "\n" or "\r\n" terminator;
    a final terminator does not start an extra empty line.
  */
  function Lines(s: string): (r: seq<string>)
    ensures forall i :: 0 <= i < |r| ==> '\n' !in r[i]
    ensures s == [] <==> r == []
    decreases |s|
  {
    if |s| == 0 then []
    else match IndexOf(s, '\n')
      case None => [s]
      case Some(i) => [StripCr(s[..i])] + Lines(s[i + 1..])
  }

  /** The first line runs up to the first '\n'. */
  lemma LinesUnfold(s: string, i: nat)
    requires IndexOf(s, '\n') == Some(i)
    ensures Lines(s) == [StripCr(s[..i])] + Lines(s[i + 1..])
  {
  }

  /** A line with no terminator reads back as itself, and one more line follows a "\n". */
  lemma LinesCons(l: string, rest: string)
    requires '\n' !in l && (|l| == 0 || l[|l| - 1] != '\r')
    ensures Lines(l + "\n" + rest) == [l] + Lines(rest)
  {
    var s := l + "\n" + rest;
    assert s[..|l|] == l;
    IndexOfFirst(s, '\n', |l|);
    assert s[|l| + 1..] == rest;
  }

  /** Strict lexicographic order on code points (SQLite's BINARY collation on UTF-8 text). */
  predicate LexLess(a: string, b: string)
    decreases |a|
  {
    if |a| == 0 then |b| > 0
    else if |b| == 0 then false
    else a[0] < b[0] || (a[0] == b[0] && LexLess(a[1..], b[1..]))
  }

  lemma {:induction false} LexLessIrreflexive(a: string)
    ensures !LexLess(a, a)
    decreases |a|
  {
    if |a| > 0 {
      LexLessIrreflexive(a[1..]);
    }
  }

  lemma {:induction false} LexLessTransitive(a: string, b: string, c: string)
    requires LexLess(a, b) && LexLess(b, c)
    ensures LexLess(a, c)
    decreases |a|
  {
    if |a| > 0 && |b| > 0 && |c| > 0 && a[0] == b[0] && b[0] == c[0] {
      LexLessTransitive(a[1..], b[1..], c[1..]);
    }
  }

  lemma {:induction false} LexLessTotal(a: string, b: string)
    ensures a == b || LexLess(a, b) || LexLess(b, a)
    decreases |a|
  {
    if |a| > 0 && |b| > 0 && a[0] == b[0] {
      LexLessTotal(a[1..], b[1..]);
      if a[1..] == b[1..] {
        assert a == [a[0]] + a[1..] && b == [b[0]] + b[1..];
      }
    }
  }

  /** Where the run of characters satisfying `p` that starts at `i` ends. */
  function RunEnd(s: string, i: nat, p: char -> bool): (j: nat)
    requires i <= |s|
    ensures i <= j <= |s| && forall k :: i <= k < j ==> p(s[k])
    ensures j == |s| || !p(s[j])
    decreases |s| - i
  {
    if i < |s| && p(s[i]) then RunEnd(s, i + 1, p) else i
  }

  lemma SeqAssoc<T>(x: seq<T>, y: seq<T>, z: seq<T>)
    ensures x + (y + z) == (x + y) + z
  {
  }

  lemma AppendParts<T>(x: seq<T>, y: seq<T>)
    ensures (x + y)[..|x|] == x && (x + y)[|x|..] == y
  {
  }

  /** A run starting after `pre` covers `mid` exactly when `post` does not continue it. */
  lemma RunOf(pre: string, mid: string, post: string, p: char -> bool)
    requires forall k :: 0 <= k < |mid| ==> p(mid[k])
    requires |post| == 0 || !p(post[0])
    ensures RunEnd(pre + mid + post, |pre|, p) == |pre| + |mid|
  {
    var s := pre + mid + post;
    forall k | |pre| <= k < |pre| + |mid|
      ensures p(s[k])
    {
      assert s[k] == mid[k - |pre|];
    }
    RunEndOver(s, |pre|, |mid|, p);
  }

  /** A run of `n` characters satisfying `p`, then one that does not or the end: the run ends after `n`. */
  lemma {:induction false} RunEndOver(s: string, i: nat, n: nat, p: char -> bool)
    requires i + n <= |s|
    requires forall k :: i <= k < i + n ==> p(s[k])
    requires i + n == |s| || !p(s[i + n])
    ensures RunEnd(s, i, p) == i + n
    decreases n
  {
    if n > 0 {
      RunEndOver(s, i + 1, n - 1, p);
    }
  }
}
