/**
 * The duration-token grammar as a reference: optional hours, minutes and
 * seconds in that order, each a decimal number followed by its unit letter.
 * A token is written with `Render`; its meaning is `TokenSeconds`. The
 * parsers are judged against this definition, which does not mention the
 * regular expression.
 */
module DurationGrammar {
  import opened Wrappers
  import opened Decimal
  import opened DurationMatch

  datatype Token = Token(hours: Option<nat>, minutes: Option<nat>, seconds: Option<nat>)

  /** One component as written: its number in decimal then its unit, or nothing. */
  function Part(c: Option<nat>, u: char): string {
    if c.Some? then NatToString(c.value) + [u] else []
  }

  function Render(t: Token): string {
    Part(t.hours, 'h') + Part(t.minutes, 'm') + Part(t.seconds, 's')
  }

  function Count(c: Option<nat>): nat {
    if c.Some? then c.value else 0
  }

  /** The number of seconds a token stands for; absent components count zero. */
  function TokenSeconds(t: Token): nat {
    3600 * Count(t.hours) + 60 * Count(t.minutes) + Count(t.seconds)
  }

  /**
   * Text after a token that the regex cannot read as a further component:
   * anything once the seconds are written, otherwise empty or not starting
   * with a digit.
   */
  predicate Delimited(t: Token, rest: string) {
    t.seconds.Some? || rest == [] || !IsDigit(rest[0])
  }

  /** The group the regex should capture for one component. */
  function PartGroup(c: Option<nat>, u: char): Option<string> {
    if c.Some? then Some(Part(c, u)) else None
  }

  /** What a present component offers to the group for unit `u`. */
  lemma GroupOnPart(c: Option<nat>, v: char, x: string, u: char)
    requires c.Some? && !IsDigit(v) && !IsDigit(u)
    ensures GroupPrefix(Part(c, v) + x, u) == if v == u then Some(Part(c, v)) else None
  {
    GroupPrefixOnDigits(NatToString(c.value), v, x, u);
  }

  /** The group for `u` tried where component `c` (unit `u`) is written, followed by `x`. */
  lemma Stage(c: Option<nat>, u: char, x: string)
    requires u in "hms"
    requires c.Some? || GroupPrefix(x, u).None?
    ensures GroupPrefix(Part(c, u) + x, u) == PartGroup(c, u)
    ensures After(Part(c, u) + x, PartGroup(c, u)) == x
  {
    if c.Some? {
      GroupOnPart(c, u, x, u);
    } else {
      assert Part(c, u) + x == x;
    }
  }

  /** Where a later component (unit `v`) or the delimited rest comes next, the group for `u` is absent. */
  lemma Absent(c: Option<nat>, v: char, x: string, u: char)
    requires u in "hms" && v in "hms" && u != v
    requires c.Some? || GroupPrefix(x, u).None?
    ensures GroupPrefix(Part(c, v) + x, u).None?
  {
    if c.Some? {
      GroupOnPart(c, v, x, u);
    } else {
      assert Part(c, v) + x == x;
    }
  }

  /** After a rendered token, no group can be read for a unit whose place has passed. */
  lemma LaterGroupsAbsent(t: Token, rest: string)
    requires Delimited(t, rest)
    ensures var afterM := Part(t.seconds, 's') + rest;
      && GroupPrefix(afterM, 'm').None?
      && GroupPrefix(Part(t.minutes, 'm') + afterM, 'h').None?
      && (t.seconds.Some? || GroupPrefix(rest, 's').None?)
  {
    var afterM := Part(t.seconds, 's') + rest;
    if t.seconds.None? {
      GroupPrefixOnNonDigit(rest, 'h');
      GroupPrefixOnNonDigit(rest, 'm');
      GroupPrefixOnNonDigit(rest, 's');
    }
    Absent(t.seconds, 's', rest, 'h');
    Absent(t.seconds, 's', rest, 'm');
    Absent(t.minutes, 'm', afterM, 'h');
  }

  /** The three steps of the regex on a rendered token followed by `rest`. */
  lemma ExecOnParts(t: Token, rest: string, s: string)
    requires Delimited(t, rest)
    requires s == Part(t.hours, 'h') + (Part(t.minutes, 'm') + (Part(t.seconds, 's') + rest))
    ensures Exec(s).value
         == MatchArray(Render(t), PartGroup(t.hours, 'h'), PartGroup(t.minutes, 'm'), PartGroup(t.seconds, 's'))
  {
    var hG, mG, sG := PartGroup(t.hours, 'h'), PartGroup(t.minutes, 'm'), PartGroup(t.seconds, 's');
    var afterM := Part(t.seconds, 's') + rest;
    var afterH := Part(t.minutes, 'm') + afterM;
    LaterGroupsAbsent(t, rest);
    Stage(t.hours, 'h', afterH);
    Stage(t.minutes, 'm', afterM);
    Stage(t.seconds, 's', rest);
    ExecSteps(s, hG, afterH, mG, afterM, sG);
    TextPartGroup(t.hours, 'h');
    TextPartGroup(t.minutes, 'm');
    TextPartGroup(t.seconds, 's');
  }

  lemma TextPartGroup(c: Option<nat>, u: char)
    ensures Text(PartGroup(c, u)) == Part(c, u)
  {
  }

  lemma RenderThen(t: Token, rest: string)
    ensures Render(t) + rest == Part(t.hours, 'h') + (Part(t.minutes, 'm') + (Part(t.seconds, 's') + rest))
  {
  }

  /** The regex reads a rendered token back component by component. */
  lemma ExecOnRendered(t: Token, rest: string)
    requires Delimited(t, rest)
    ensures Exec(Render(t) + rest).value
         == MatchArray(Render(t), PartGroup(t.hours, 'h'), PartGroup(t.minutes, 'm'), PartGroup(t.seconds, 's'))
  {
    RenderThen(t, rest);
    ExecOnParts(t, rest, Render(t) + rest);
  }
}
