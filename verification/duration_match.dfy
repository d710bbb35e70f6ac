/**
 * The regular expression `(\d+h)?(\d+m)?(\d+s)?` that both duration parsers
 * apply with `String.prototype.match` (no `g` flag, not anchored).
 *
 * Every part is optional, so the leftmost match is always at index 0 and
 * `match` never returns `null`. Each group is tried once, greedily: `\d+`
 * takes the longest digit run and the group matches exactly when the unit
 * letter follows that run (a shorter run is followed by a digit, so
 * backtracking never helps, and no later part can fail).
 */
module DurationMatch {
  import opened Wrappers
  import opened Decimal

  /** `value` read in unit `u`, as the `switch` in `parseDuration` weighs it; other letters add nothing. */
  function Weigh(value: nat, u: char): nat {
    match u
    case 'h' => value * 3600
    case 'm' => value * 60
    case 's' => value
    case _ => 0
  }

  /** Text one group `(\d+u)` can capture: at least one digit, then the unit. */
  predicate IsGroup(g: string, u: char) {
    |g| >= 2 && AllDigits(g[..|g| - 1]) && g[|g| - 1] == u
  }

  /** The number written in a captured group. */
  function GroupValue(g: string, u: char): nat
    requires IsGroup(g, u)
  {
    ValueOf(g[..|g| - 1])
  }

  /** A captured group starts with a digit, and `parseInt` reads its number with or without the unit. */
  lemma GroupParse(g: string, u: char)
    requires IsGroup(g, u) && !IsDigit(u)
    ensures IsDigit(g[0])
    ensures ParseInt(g) == GroupValue(g, u)
    ensures ParseInt(g[..|g| - 1]) == GroupValue(g, u)
  {
    var d := g[..|g| - 1];
    assert g == d + [u];
    assert g[0] == d[0];
    ParseIntDigitsThen(d, [u]);
    ParseIntDigitsThen(d, []);
    assert d + [] == d;
  }

  /** What a possibly absent group contributes as a count: its number, or zero. */
  function GroupCount(g: Option<string>, u: char): nat
    requires GroupOk(g, u)
  {
    if g.Some? then GroupValue(g.value, u) else 0
  }

  /** The optional group `(\d+u)?` tried at the start of `s`. */
  function GroupPrefix(s: string, u: char): (g: Option<string>)
    requires !IsDigit(u)
    ensures g.Some? ==> IsGroup(g.value, u) && |g.value| <= |s| && s[..|g.value|] == g.value
  {
    var n := DigitRun(s, 0);
    if n >= 1 && n < |s| && s[n] == u then
      var g := s[..n + 1];
      assert g[..|g| - 1] == s[..n];
      Some(g)
    else
      None
  }

  /** A group at the start of `s` is the greedy digit run there followed by its unit letter. */
  lemma GroupIsGreedyRun(s: string, k: nat, u: char)
    requires 0 < k <= |s| && !IsDigit(u)
    ensures IsGroup(s[..k], u) ==> DigitRun(s, 0) == k - 1 && s[k - 1] == u
  {
    var g := s[..k];
    if IsGroup(g, u) {
      forall i | 0 <= i < k - 1
        ensures IsDigit(s[i])
      {
        assert s[i] == g[..|g| - 1][i];
      }
      assert s[k - 1] == g[|g| - 1];
      DigitRunExact(s, 0, k - 1);
    }
  }

  /** The group is absent exactly when no prefix of `s` is a group: greediness loses nothing. */
  lemma GroupPrefixAbsent(s: string, u: char)
    requires !IsDigit(u)
    ensures GroupPrefix(s, u).None? <==> forall k :: 0 < k <= |s| ==> !IsGroup(s[..k], u)
  {
    if GroupPrefix(s, u).None? {
      forall k | 0 < k <= |s|
        ensures !IsGroup(s[..k], u)
      {
        GroupIsGreedyRun(s, k, u);
      }
    } else {
      var g := GroupPrefix(s, u).value;
      assert s[..|g|] == g;
    }
  }

  /** Digits followed by a letter: the group matches exactly when the letter is the unit. */
  lemma GroupPrefixOnDigits(d: string, v: char, x: string, u: char)
    requires |d| >= 1 && AllDigits(d) && !IsDigit(v) && !IsDigit(u)
    ensures GroupPrefix(d + [v] + x, u) == if v == u then Some(d + [v]) else None
  {
    var s := d + [v] + x;
    DigitRunExact(s, 0, |d|);
    assert s[..|d| + 1] == d + [v];
  }

  /** Text that does not start with a digit holds no group. */
  lemma GroupPrefixOnNonDigit(x: string, u: char)
    requires !IsDigit(u)
    requires x == [] || !IsDigit(x[0])
    ensures GroupPrefix(x, u) == None
  {
  }

  function Text(g: Option<string>): string {
    if g.Some? then g.value else []
  }

  /** The array `match` returns: the whole match, then the three groups (`undefined` when absent). */
  datatype MatchArray = MatchArray(whole: string, hours: Option<string>, minutes: Option<string>, seconds: Option<string>)

  predicate GroupOk(g: Option<string>, u: char) {
    g.None? || IsGroup(g.value, u)
  }

  /** The shape every match has: well-formed groups whose concatenation is the whole match. */
  predicate WellFormed(m: MatchArray) {
    && GroupOk(m.hours, 'h') && GroupOk(m.minutes, 'm') && GroupOk(m.seconds, 's')
    && m.whole == Text(m.hours) + Text(m.minutes) + Text(m.seconds)
  }

  /** What is left of `s` once group `g`, found at its start, is consumed. */
  function After(s: string, g: Option<string>): (rest: string)
    requires g.Some? ==> |g.value| <= |s| && s[..|g.value|] == g.value
    ensures s == Text(g) + rest
  {
    if g.Some? then
      assert s == g.value + s[|g.value|..];
      s[|g.value|..]
    else
      s
  }

  lemma JoinPrefix(s: string, a: string, b: string, c: string, rest: string)
    requires s == a + (b + (c + rest))
    ensures |a + b + c| <= |s| && s[..|a + b + c|] == a + b + c
  {
    assert s == (a + b + c) + rest;
  }

  /** `s.match(/(\d+h)?(\d+m)?(\d+s)?/)`: the groups are tried one after another on what is left. */
  function Exec(s: string): (r: Option<MatchArray>)
    ensures r.Some?
    ensures WellFormed(r.value)
    ensures |r.value.whole| <= |s| && s[..|r.value.whole|] == r.value.whole
  {
    var h := GroupPrefix(s, 'h');
    var afterH := After(s, h);
    var m := GroupPrefix(afterH, 'm');
    var afterM := After(afterH, m);
    var sec := GroupPrefix(afterM, 's');
    JoinPrefix(s, Text(h), Text(m), Text(sec), After(afterM, sec));
    Some(MatchArray(Text(h) + Text(m) + Text(sec), h, m, sec))
  }

  /**
   * Each group of the match is the greedy group at the start of what the
   * groups before it left over, for every input string.
   */
  lemma ExecGroups(s: string)
    ensures Exec(s).value.hours == GroupPrefix(s, 'h')
    ensures Exec(s).value.minutes == GroupPrefix(After(s, Exec(s).value.hours), 'm')
    ensures Exec(s).value.seconds == GroupPrefix(After(After(s, Exec(s).value.hours), Exec(s).value.minutes), 's')
  {
  }

  /** `Exec` determined by what each of its three steps finds. */
  lemma ExecSteps(s: string, h: Option<string>, afterH: string, m: Option<string>, afterM: string, sec: Option<string>)
    requires GroupPrefix(s, 'h') == h && After(s, h) == afterH
    requires GroupPrefix(afterH, 'm') == m && After(afterH, m) == afterM
    requires GroupPrefix(afterM, 's') == sec
    ensures Exec(s).value == MatchArray(Text(h) + Text(m) + Text(sec), h, m, sec)
  {
  }

  /** The whole match is empty, or starts with a digit and is at least two characters long. */
  lemma WholeShape(m: MatchArray)
    requires WellFormed(m)
    ensures m.whole == [] || (|m.whole| >= 2 && IsDigit(m.whole[0]))
  {
    var g := if m.hours.Some? then m.hours else if m.minutes.Some? then m.minutes else m.seconds;
    var u := if m.hours.Some? then 'h' else if m.minutes.Some? then 'm' else 's';
    if g.Some? {
      GroupParse(g.value, u);
      assert m.whole == g.value + m.whole[|g.value|..];
    }
  }

  /** The number of the first group present (zero when none is). */
  function LeadCount(m: MatchArray): nat
    requires WellFormed(m)
  {
    if m.hours.Some? then GroupCount(m.hours, 'h')
    else if m.minutes.Some? then GroupCount(m.minutes, 'm')
    else GroupCount(m.seconds, 's')
  }

  /** The seconds a match denotes: `3600 * H + 60 * M + S`, absent groups counting zero. */
  function MatchSeconds(m: MatchArray): nat
    requires WellFormed(m)
  {
    3600 * GroupCount(m.hours, 'h') + 60 * GroupCount(m.minutes, 'm') + GroupCount(m.seconds, 's')
  }

  /** What reading element 0 of a match adds: the lead number weighted by the last unit. */
  function Overcount(m: MatchArray): nat
    requires WellFormed(m)
  {
    Weigh(LeadCount(m), LastUnit(m))
  }

  /** The unit letter of the last group present (a space, weighing nothing, when none is). */
  function LastUnit(m: MatchArray): char {
    if m.seconds.Some? then 's'
    else if m.minutes.Some? then 'm'
    else if m.hours.Some? then 'h'
    else ' '
  }
}
