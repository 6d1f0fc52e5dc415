/**
  The programme duration shown in search results: a number of seconds from
  the programmes API rendered as "h:mm:ss", or "m:ss" under an hour.
*/
module Duration {
  import opened Wrappers
  import opened Text

  const SecondsPerMinute: nat := 60
  const SecondsPerHour: nat := 3600

  /** Hours, minutes and seconds. */
  datatype Clock = Clock(h: nat, m: nat, s: nat)

  /** The split the formatter makes: whole hours, then whole minutes, then the remaining seconds. */
  function ToClock(d: nat): (c: Clock)
    ensures SecondsPerHour * c.h + SecondsPerMinute * c.m + c.s == d
    ensures c.m < 60 && c.s < 60
  {
    Clock(d / SecondsPerHour, (d % SecondsPerHour) / SecondsPerMinute, d % SecondsPerMinute)
  }

  /** The split is the only one with minutes and seconds under 60. */
  lemma ToClockUnique(d: nat, c: Clock)
    requires SecondsPerHour * c.h + SecondsPerMinute * c.m + c.s == d && c.m < 60 && c.s < 60
    ensures ToClock(d) == c
  {
    var r := ToClock(d);
    assert 60 * c.m + c.s < SecondsPerHour;
    assert 60 * r.m + r.s < SecondsPerHour;
    assert c.h == r.h by {
      Scaled(c.h, r.h, 60 * c.m + c.s, 60 * r.m + r.s, SecondsPerHour);
    }
    assert c.m == r.m by {
      Scaled(c.m, r.m, c.s, r.s, 60);
    }
  }

  /** Two numbers written as `k * q + r` with `r < k` agree on the quotient. */
  lemma Scaled(q1: nat, q2: nat, r1: nat, r2: nat, k: nat)
    requires r1 < k && r2 < k && k * q1 + r1 == k * q2 + r2
    ensures q1 == q2
  {
    if q1 < q2 {
      MulMono(k, q1 + 1, q2);
    } else if q2 < q1 {
      MulMono(k, q2 + 1, q1);
    }
  }

  lemma MulMono(k: nat, a: nat, b: nat)
    requires a <= b
    ensures k * a <= k * b
  {
  }

  /**
    The duration text. The source takes the seconds as a `u64`; division and
    remainder cannot overflow, so the unbounded model agrees on that range.
  */
  function FormatDuration(d: nat): (r: string)
    ensures d >= SecondsPerHour ==> |SplitAll(r, ':')| == 3
    ensures d < SecondsPerHour ==> |SplitAll(r, ':')| == 2
  {
    var c := ToClock(d);
    if c.h > 0 then
      var r := Join([NatToString(c.h), Pad2(c.m), Pad2(c.s)], ":");
      SplitAllJoin3(NatToString(c.h), Pad2(c.m), Pad2(c.s), ':');
      r
    else
      var r := Join([NatToString(c.m), Pad2(c.s)], ":");
      SplitAllJoin2(NatToString(c.m), Pad2(c.s), ':');
      r
  }

  /** A field of exactly two digits, the form `{:02}` gives numbers under 100. */
  predicate TwoDigits(f: string) {
    |f| == 2 && AllDigits(f)
  }

  /**
    The reading of a duration text: "h:mm:ss" or "m:ss", every field
    decimal, the last ones exactly two digits wide. It is the reference the
    formatter is checked against.
  */
  function ParseDuration(r: string): (d: Option<nat>)
    ensures d.Some? ==> 2 <= |SplitAll(r, ':')| <= 3
  {
    var f := SplitAll(r, ':');
    if |f| == 3 && |f[0]| > 0 && AllDigits(f[0]) && TwoDigits(f[1]) && TwoDigits(f[2]) then
      Some(SecondsPerHour * DigitsValue(f[0]) + SecondsPerMinute * DigitsValue(f[1]) + DigitsValue(f[2]))
    else if |f| == 2 && |f[0]| > 0 && AllDigits(f[0]) && TwoDigits(f[1]) then
      Some(SecondsPerMinute * DigitsValue(f[0]) + DigitsValue(f[1]))
    else None
  }

  /** Reading a formatted duration gives the number of seconds back. */
  lemma ParseFormat(d: nat)
    ensures ParseDuration(FormatDuration(d)) == Some(d)
  {
    if d >= SecondsPerHour {
      ParseFormatLong(d);
    } else {
      ParseFormatShort(d);
    }
  }

  lemma ParseFormatLong(d: nat)
    requires d >= SecondsPerHour
    ensures ParseDuration(FormatDuration(d)) == Some(d)
  {
    var c := ToClock(d);
    assert c.h > 0;
    assert FormatDuration(d) == Join([NatToString(c.h), Pad2(c.m), Pad2(c.s)], ":");
    ParseLong(c.h, c.m, c.s);
  }

  lemma ParseFormatShort(d: nat)
    requires d < SecondsPerHour
    ensures ParseDuration(FormatDuration(d)) == Some(d)
  {
    var c := ToClock(d);
    assert c.h == 0;
    assert FormatDuration(d) == Join([NatToString(c.m), Pad2(c.s)], ":");
    ParseShort(c.m, c.s);
  }

  lemma ParseLong(h: nat, m: nat, s: nat)
    requires m < 60 && s < 60
    ensures ParseDuration(Join([NatToString(h), Pad2(m), Pad2(s)], ":"))
      == Some(SecondsPerHour * h + SecondsPerMinute * m + s)
  {
    Pad2Value(m);
    Pad2Value(s);
    DigitsValueOfNat(h);
    SplitAllJoin3(NatToString(h), Pad2(m), Pad2(s), ':');
  }

  lemma ParseShort(m: nat, s: nat)
    requires s < 60
    ensures ParseDuration(Join([NatToString(m), Pad2(s)], ":")) == Some(SecondsPerMinute * m + s)
  {
    Pad2Value(s);
    DigitsValueOfNat(m);
    SplitAllJoin2(NatToString(m), Pad2(s), ':');
  }

  /** Different durations are shown differently. */
  lemma FormatInjective(d1: nat, d2: nat)
    requires FormatDuration(d1) == FormatDuration(d2)
    ensures d1 == d2
  {
    ParseFormat(d1);
    ParseFormat(d2);
  }

  /** Under an hour the hours are left out; the minutes are not padded. */
  lemma UnderAnHour(d: nat)
    requires d < SecondsPerHour
    ensures FormatDuration(d) == NatToString(d / 60) + ":" + Pad2(d % 60)
  {
    assert d / SecondsPerHour == 0 && d % SecondsPerHour == d;
    assert ToClock(d) == Clock(0, d / 60, d % 60);
    var parts := [NatToString(d / 60), Pad2(d % 60)];
    assert FormatDuration(d) == Join(parts, ":");
    assert parts[1..] == [Pad2(d % 60)];
    assert Join(parts[1..], ":") == Pad2(d % 60);
  }

  /** Zero-padded numbers under 100 read back as themselves. */
  lemma Pad2Value(n: nat)
    requires n < 100
    ensures TwoDigits(Pad2(n)) && DigitsValue(Pad2(n)) == n
  {
    if n < 10 {
      var p := Pad2(n);
      assert p == ['0', DigitChar(n)];
      assert p[..1] == ['0'] && ['0'][..0] == [];
    } else {
      DigitsValueOfNat(n);
      DigitsValueOfNat(n / 10);
    }
  }

  lemma SplitAllJoin2(a: string, b: string, c: char)
    requires c !in a && c !in b
    ensures SplitAll(Join([a, b], [c]), c) == [a, b]
  {
    var s := a + [c] + b;
    assert Join([a, b], [c]) == s by {
      assert [a, b][1..] == [b];
    }
    assert s[..|a|] == a;
    IndexOfFirst(s, c, |a|);
    assert s[|a| + 1..] == b;
  }

  lemma SplitAllJoin3(a: string, b: string, d: string, c: char)
    requires c !in a && c !in b && c !in d
    ensures SplitAll(Join([a, b, d], [c]), c) == [a, b, d]
  {
    var t := b + [c] + d;
    var s := a + [c] + t;
    assert Join([a, b, d], [c]) == s by {
      assert [a, b, d][1..] == [b, d] && [b, d][1..] == [d];
    }
    assert s[..|a|] == a;
    IndexOfFirst(s, c, |a|);
    assert s[|a| + 1..] == t;
    SplitAllJoin2(b, d, c);
    assert Join([b, d], [c]) == t by {
      assert [b, d][1..] == [d];
    }
  }
}
