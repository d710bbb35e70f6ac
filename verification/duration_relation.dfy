/**
 * How the two duration parsers relate. `parseDuration` (helpers/epg.mjs)
 * visits element 0 of the match array as well as the three groups, so on top
 * of the exact `3600 * H + 60 * M + S` of `getSecondsFromDuration`
 * (helpers/get_total_time.mjs) it adds the number of the first component
 * weighted by the unit of the last one.
 */
module DurationRelation {
  import opened Wrappers
  import opened JsValue
  import opened Decimal
  import opened DurationMatch
  import opened DurationGrammar
  import opened Epg
  import TotalTime

  /** `parseInt` of a match without its last character reads the first component's digits. */
  lemma InitParse(d: string, u: char, tail: string)
    requires |d| >= 1 && AllDigits(d) && !IsDigit(u)
    ensures var w := d + [u] + tail;
      |w[..|w| - 1]| > 0 && IsDigit(w[..|w| - 1][0]) && ParseInt(w[..|w| - 1]) == ValueOf(d)
  {
    var x := [u] + tail;
    var y := x[..|x| - 1];
    assert d + [u] + tail == d + x;
    DropLast(d, x);
    assert y == [] || y[0] == u;
    ParseIntDigitsThen(d, y);
    assert (d + y)[0] == d[0];
  }

  lemma DropLast(d: string, x: string)
    requires x != []
    ensures var w := d + x; w[..|w| - 1] == d + x[..|x| - 1]
  {
  }

  /** Element 0 of a match led by group `g` weighs `g`'s number by the match's last character. */
  lemma LeadContribution(w: string, g: string, u: char, tail: string, lead: nat, last: char)
    requires IsGroup(g, u) && !IsDigit(u) && w == g + tail
    requires GroupValue(g, u) == lead && w[|w| - 1] == last
    ensures |w| >= 2 && IsDigit(w[0])
    ensures Contribution(Some(w)) == Weigh(lead, last)
  {
    var d := g[..|g| - 1];
    assert g == d + [u];
    assert w == d + [u] + tail;
    InitParse(d, u, tail);
  }

  /** The last character of a non-empty match is the unit of its last group. */
  lemma LastCharacter(m: MatchArray)
    requires WellFormed(m) && m.whole != []
    ensures m.whole[|m.whole| - 1] == LastUnit(m)
  {
    if m.seconds.Some? {
      assert m.whole == (Text(m.hours) + Text(m.minutes)) + m.seconds.value;
    } else if m.minutes.Some? {
      assert m.whole == Text(m.hours) + m.minutes.value;
    } else {
      assert m.whole == m.hours.value;
    }
  }

  /** Element 0 of the match adds the first component's number times the last component's weight. */
  lemma WholeContribution(m: MatchArray)
    requires WellFormed(m)
    ensures m.whole == [] || (|m.whole| >= 2 && IsDigit(m.whole[0]))
    ensures Contribution(Some(m.whole)) == Overcount(m)
  {
    WholeShape(m);
    if m.hours.Some? {
      LedByHours(m);
    } else if m.minutes.Some? {
      LedByMinutes(m);
    } else if m.seconds.Some? {
      LedBySeconds(m);
    }
  }

  lemma LedByHours(m: MatchArray)
    requires WellFormed(m) && m.hours.Some?
    ensures |m.whole| >= 2 && IsDigit(m.whole[0])
    ensures Contribution(Some(m.whole)) == Overcount(m)
  {
    LastCharacter(m);
    LeadContribution(m.whole, m.hours.value, 'h', Text(m.minutes) + Text(m.seconds), LeadCount(m), LastUnit(m));
  }

  lemma LedByMinutes(m: MatchArray)
    requires WellFormed(m) && m.hours.None? && m.minutes.Some?
    ensures |m.whole| >= 2 && IsDigit(m.whole[0])
    ensures Contribution(Some(m.whole)) == Overcount(m)
  {
    LastCharacter(m);
    LeadContribution(m.whole, m.minutes.value, 'm', Text(m.seconds), LeadCount(m), LastUnit(m));
  }

  lemma LedBySeconds(m: MatchArray)
    requires WellFormed(m) && m.hours.None? && m.minutes.None? && m.seconds.Some?
    ensures |m.whole| >= 2 && IsDigit(m.whole[0])
    ensures Contribution(Some(m.whole)) == Overcount(m)
  {
    LastCharacter(m);
    LeadContribution(m.whole, m.seconds.value, 's', [], LeadCount(m), LastUnit(m));
  }

  /** On a string, `parseDuration` is the callback summed over the match array. */
  lemma ParseDurationOnString(s: string)
    ensures ParseDuration(Str(s)).value == MatchTotal(Exec(s).value)
  {
  }

  /** The four-element sum is the exact total plus the lead number weighted by the last unit. */
  lemma MatchTotalSplit(m: MatchArray)
    requires WellFormed(m)
    ensures MatchTotal(m) == MatchSeconds(m) + Overcount(m)
  {
    WholeContribution(m);
    GroupContribution(m.hours, 'h');
    GroupContribution(m.minutes, 'm');
    GroupContribution(m.seconds, 's');
  }

  /**
   * For every string, `parseDuration` is `getSecondsFromDuration` plus the
   * first component's number weighted by the last component's unit.
   */
  lemma ParseDurationOvercounts(s: string)
    ensures ParseDuration(Str(s)).value == TotalTime.GetSecondsFromDuration(s) + Overcount(Exec(s).value)
  {
    ParseDurationOnString(s);
    MatchTotalSplit(Exec(s).value);
  }

  /** The number of a token's first component, and the letter of its last one. */
  function Lead(t: Token): nat {
    if t.hours.Some? then t.hours.value else if t.minutes.Some? then t.minutes.value else Count(t.seconds)
  }

  function LastLetter(t: Token): char {
    if t.seconds.Some? then 's' else if t.minutes.Some? then 'm' else if t.hours.Some? then 'h' else ' '
  }

  /** The match array the regex yields on a rendered token. */
  function TokenMatch(t: Token): MatchArray {
    MatchArray(Render(t), PartGroup(t.hours, 'h'), PartGroup(t.minutes, 'm'), PartGroup(t.seconds, 's'))
  }

  lemma TokenMatchWellFormed(t: Token)
    ensures WellFormed(TokenMatch(t))
    ensures MatchSeconds(TokenMatch(t)) == TokenSeconds(t)
    ensures Overcount(TokenMatch(t)) == Weigh(Lead(t), LastLetter(t))
  {
    TotalTime.PartGroupCount(t.hours, 'h');
    TotalTime.PartGroupCount(t.minutes, 'm');
    TotalTime.PartGroupCount(t.seconds, 's');
  }

  /**
   * On a rendered token, `parseDuration` gives the token's seconds plus its
   * first number read in the unit of its last component.
   */
  lemma ParseDurationOnRendered(t: Token, rest: string)
    requires Delimited(t, rest)
    ensures ParseDuration(Str(Render(t) + rest)).value == TokenSeconds(t) + Weigh(Lead(t), LastLetter(t))
  {
    ExecOnRendered(t, rest);
    TokenMatchWellFormed(t);
    ParseDurationOnString(Render(t) + rest);
    MatchTotalSplit(TokenMatch(t));
  }

  /** So `parseDuration` agrees with `getSecondsFromDuration` on a rendered token exactly when its first number is zero. */
  lemma ParseDurationExactIff(t: Token, rest: string)
    requires Delimited(t, rest)
    ensures ParseDuration(Str(Render(t) + rest)).value == TotalTime.GetSecondsFromDuration(Render(t) + rest) <==> Lead(t) == 0
  {
    ParseDurationOnRendered(t, rest);
    TotalTime.GetSecondsOnRendered(t, rest);
    LeadWeighZero(t);
  }

  /** The over-count vanishes exactly when the first number is zero. */
  lemma LeadWeighZero(t: Token)
    ensures Weigh(Lead(t), LastLetter(t)) == 0 <==> Lead(t) == 0
  {
  }

  /**
   * Text that does not start with a digit (the empty string included) has no
   * leading component: both parsers give 0, and `parseDuration` does not throw.
   */
  lemma NoLeadingComponent(s: string)
    requires s == [] || !IsDigit(s[0])
    ensures ParseDuration(Str(s)) == Ok(0)
    ensures TotalTime.GetSecondsFromDuration(s) == 0
  {
    var t := Token(None, None, None);
    assert Render(t) + s == s;
    assert TokenSeconds(t) == 0 && Weigh(Lead(t), LastLetter(t)) == 0;
    ParseDurationOnRendered(t, s);
    assert ParseDuration(Str(s)).value == 0;
    TotalTime.GetSecondsOnRendered(t, s);
  }

  /** "1h2m3s": the exact reader gives 3723, `parseDuration` adds the leading 1 in seconds. */
  lemma FullDurationExample()
    ensures ParseDuration(Str("1h2m3s")) == Ok(3724)
    ensures TotalTime.GetSecondsFromDuration("1h2m3s") == 3723
  {
    var t := Token(Some(1), Some(2), Some(3));
    assert Render(t) + [] == "1h2m3s";
    ParseDurationOnRendered(t, []);
    TotalTime.GetSecondsOnRendered(t, []);
  }

  /** "45m": a single component is counted twice by `parseDuration`. */
  lemma MinutesOnlyExample()
    ensures ParseDuration(Str("45m")) == Ok(5400)
    ensures TotalTime.GetSecondsFromDuration("45m") == 2700
  {
    var t := Token(None, Some(45), None);
    assert Render(t) + [] == "45m";
    ParseDurationOnRendered(t, []);
    TotalTime.GetSecondsOnRendered(t, []);
  }

  /** "1h30m": the leading 1 is read in minutes, so `parseDuration` gives 5460 rather than 5400. */
  lemma HoursMinutesExample()
    ensures ParseDuration(Str("1h30m")) == Ok(5460)
    ensures TotalTime.GetSecondsFromDuration("1h30m") == 5400
  {
    var t := Token(Some(1), Some(30), None);
    assert Render(t) + [] == "1h30m";
    ParseDurationOnRendered(t, []);
    TotalTime.GetSecondsOnRendered(t, []);
  }

  /** "3s1h": components out of order are not read; only the leading "3s" counts. */
  lemma OutOfOrderExample()
    ensures ParseDuration(Str("3s1h")) == Ok(6)
    ensures TotalTime.GetSecondsFromDuration("3s1h") == 3
  {
    var t := Token(None, None, Some(3));
    assert Render(t) + "1h" == "3s1h";
    assert TokenSeconds(t) == 3 && Weigh(Lead(t), LastLetter(t)) == 3;
    ParseDurationOnRendered(t, "1h");
    assert ParseDuration(Str("3s1h")).value == 6;
    TotalTime.GetSecondsOnRendered(t, "1h");
  }
}
