/**
 * Pieces of the HH:MM:SS formatter shared by its two copies: the
 * hours/minutes/seconds split, two-digit zero padding, and a reader that
 * takes an "H:M:S" text back to seconds (the reference the formatter's
 * output is checked against).
 */
module Clock {
  import opened Wrappers
  import opened Decimal

  /**
   * Whole hours, the whole minutes left over and the seconds left over: the
   * unique split of `t` into hours, minutes below 60 and seconds below 60.
   */
  function Split3(t: nat): (f: (nat, nat, nat))
    ensures f.0 * 3600 + f.1 * 60 + f.2 == t
    ensures f.1 < 60 && f.2 < 60
  {
    (t / 3600, (t % 3600) / 60, t % 60)
  }

  /** The decimal digits of `n`, left-padded with '0' to at least two characters. */
  function Pad2(n: nat): (r: string)
    ensures AllDigits(r) && |r| >= 2 && ValueOf(r) == n
    ensures n < 100 ==> |r| == 2
    ensures n >= 10 ==> r[0] != '0'
    ensures ':' !in r
  {
    var digits := NatToString(n);
    var r := PadStart(digits, 2, '0');
    var zeros := r[..|r| - |digits|];
    assert r == zeros + digits;
    ValueOfLeadingZeros(zeros, digits);
    r
  }

  predicate Field(f: string) {
    |f| > 0 && AllDigits(f)
  }

  /**
   * The layout the formatter produces: three digit fields separated by ':',
   * minutes and seconds two digits each and below 60, hours at least two
   * digits with a leading zero only when there are exactly two.
   */
  predicate ClockLayout(s: string) {
    var f := Split(s, ':');
    && |f| == 3 && Field(f[0]) && Field(f[1]) && Field(f[2])
    && |f[0]| >= 2 && (|f[0]| == 2 || f[0][0] != '0')
    && |f[1]| == 2 && ValueOf(f[1]) < 60
    && |f[2]| == 2 && ValueOf(f[2]) < 60
  }

  /** Reads "H:M:S" (three non-empty digit fields) as `H * 3600 + M * 60 + S`. */
  function ReadClock(s: string): Option<nat> {
    ReadFields(Split(s, ':'))
  }

  function ReadFields(fields: seq<string>): Option<nat> {
    if |fields| == 3 && Field(fields[0]) && Field(fields[1]) && Field(fields[2]) then
      Some(ValueOf(fields[0]) * 3600 + ValueOf(fields[1]) * 60 + ValueOf(fields[2]))
    else
      None
  }

  /** Joining three colon-free fields with ':' and splitting again gives them back. */
  lemma SplitJoined(a: string, b: string, c: string)
    requires ':' !in a && ':' !in b && ':' !in c
    ensures Split(a + ":" + b + ":" + c, ':') == [a, b, c]
  {
    SplitNoSeparator(c, ':');
    SplitAround(b, ':', c);
    assert b + ":" + c == b + [':'] + c;
    SplitAround(a, ':', b + ":" + c);
    assert a + ":" + b + ":" + c == a + [':'] + (b + ":" + c);
  }

  /** Three digit fields joined by ':' read back as their weighted sum. */
  lemma ReadJoined(a: string, b: string, c: string, h: nat, m: nat, s: nat, t: nat)
    requires Field(a) && Field(b) && Field(c) && ':' !in a && ':' !in b && ':' !in c
    requires ValueOf(a) == h && ValueOf(b) == m && ValueOf(c) == s && h * 3600 + m * 60 + s == t
    ensures ReadClock(a + ":" + b + ":" + c) == Some(t)
  {
    SplitJoined(a, b, c);
    ReadThree(a, b, c, h, m, s, t);
  }

  lemma ReadThree(a: string, b: string, c: string, h: nat, m: nat, s: nat, t: nat)
    requires Field(a) && Field(b) && Field(c)
    requires ValueOf(a) == h && ValueOf(b) == m && ValueOf(c) == s && h * 3600 + m * 60 + s == t
    ensures ReadFields([a, b, c]) == Some(t)
  {
  }

  lemma ShortJoined(a: string, b: string, c: string)
    requires |a| == 2 && |b| == 2 && |c| == 2
    ensures var r := a + ":" + b + ":" + c; |r| == 8 && r[2] == ':' && r[5] == ':'
  {
  }

  /** Three padded fields joined by ':' read back as their weighted sum; below 100 hours the layout is fixed. */
  lemma ClockText(h: nat, m: nat, s: nat)
    requires m < 60 && s < 60
    ensures ReadClock(Pad2(h) + ":" + Pad2(m) + ":" + Pad2(s)) == Some(h * 3600 + m * 60 + s)
    ensures var r := Pad2(h) + ":" + Pad2(m) + ":" + Pad2(s);
      h < 100 ==> |r| == 8 && r[2] == ':' && r[5] == ':'
  {
    ReadSplit(h * 3600 + m * 60 + s, h, m, s);
    if h < 100 {
      ShortJoined(Pad2(h), Pad2(m), Pad2(s));
    }
  }

  /** Fields of the right widths joined by ':' have the formatter's layout. */
  lemma LayoutJoined(a: string, b: string, c: string)
    requires Field(a) && Field(b) && Field(c) && ':' !in a && ':' !in b && ':' !in c
    requires |a| >= 2 && (|a| == 2 || a[0] != '0')
    requires |b| == 2 && ValueOf(b) < 60 && |c| == 2 && ValueOf(c) < 60
    ensures ClockLayout(a + ":" + b + ":" + c)
  {
    SplitJoined(a, b, c);
  }

  /** Three padded fields joined by ':' have the formatter's layout, for every number of hours. */
  lemma ClockTextLayout(h: nat, m: nat, s: nat)
    requires m < 60 && s < 60
    ensures ClockLayout(Pad2(h) + ":" + Pad2(m) + ":" + Pad2(s))
  {
    LayoutJoined(Pad2(h), Pad2(m), Pad2(s));
  }

  lemma ReadSplit(t: nat, h: nat, m: nat, s: nat)
    requires h * 3600 + m * 60 + s == t && m < 60 && s < 60
    ensures ReadClock(Pad2(h) + ":" + Pad2(m) + ":" + Pad2(s)) == Some(t)
  {
    var a, b, c := Pad2(h), Pad2(m), Pad2(s);
    ReadJoined(a, b, c, h, m, s, t);
  }

  lemma ShortSplit(t: nat, h: nat, m: nat, s: nat)
    requires h * 3600 + m * 60 + s == t && m < 60 && s < 60
    ensures var r := Pad2(h) + ":" + Pad2(m) + ":" + Pad2(s);
      t < 360000 ==> |r| == 8 && r[2] == ':' && r[5] == ':'
  {
    if t < 360000 {
      assert h * 3600 <= t;
      ClockText(h, m, s);
    }
  }

  /** What both formatters promise of the padded fields of any split of `t` into hours, minutes and seconds. */
  lemma SplitText(t: nat, h: nat, m: nat, s: nat)
    requires h * 3600 + m * 60 + s == t && m < 60 && s < 60
    ensures ReadClock(Pad2(h) + ":" + Pad2(m) + ":" + Pad2(s)) == Some(t)
    ensures var r := Pad2(h) + ":" + Pad2(m) + ":" + Pad2(s);
      t < 360000 ==> |r| == 8 && r[2] == ':' && r[5] == ':'
    ensures ClockLayout(Pad2(h) + ":" + Pad2(m) + ":" + Pad2(s))
  {
    ReadSplit(t, h, m, s);
    ShortSplit(t, h, m, s);
    ClockTextLayout(h, m, s);
  }
}
