/**
 * helpers/format.mjs: a second copy of `getSecondsFromDuration` and
 * `formatSecondsToHHMMSS`, written here step by step as that file states
 * them, and proved to agree with the helpers/get_total_time.mjs copies on
 * every input.
 */
module Format {
  import opened Wrappers
  import opened Decimal
  import opened DurationMatch
  import opened Clock
  import TotalTime

  /** One step of the running total: a present group adds its number times its unit's weight. */
  function AddPart(seconds: nat, part: Option<string>, u: char): (r: nat)
    requires GroupOk(part, u) && u in "hms"
    ensures r == seconds + Weigh(GroupCount(part, u), u)
  {
    if part.Some? then
      GroupParse(part.value, u);
      seconds + Weigh(ParseInt(part.value), u)
    else
      seconds
  }

  /** `getSecondsFromDuration`: the running total over groups 1 to 3 of the match. */
  function GetSecondsFromDuration(duration: string): (r: nat)
    ensures r == MatchSeconds(Exec(duration).value)
  {
    SumParts(Exec(duration).value)
  }

  /** The running total over the three groups of one match. */
  function SumParts(timeParts: MatchArray): (r: nat)
    requires WellFormed(timeParts)
    ensures r == MatchSeconds(timeParts)
  {
    WeighedSeconds(timeParts);
    var seconds := AddPart(0, timeParts.hours, 'h');
    var seconds' := AddPart(seconds, timeParts.minutes, 'm');
    AddPart(seconds', timeParts.seconds, 's')
  }

  lemma WeighedSeconds(m: MatchArray)
    requires WellFormed(m)
    ensures MatchSeconds(m)
         == Weigh(GroupCount(m.hours, 'h'), 'h') + Weigh(GroupCount(m.minutes, 'm'), 'm') + Weigh(GroupCount(m.seconds, 's'), 's')
  {
  }

  /** The two copies of `getSecondsFromDuration` agree on every string. */
  lemma GetSecondsCopiesAgree(duration: string)
    ensures GetSecondsFromDuration(duration) == TotalTime.GetSecondsFromDuration(duration)
  {
  }

  /** `formatSecondsToHHMMSS`: the template literal over the floor divisions and remainders. */
  function FormatSecondsToHHMMSS(totalSeconds: nat): (r: string)
    ensures ReadClock(r) == Some(totalSeconds)
    ensures totalSeconds < 360000 ==> |r| == 8 && r[2] == ':' && r[5] == ':'
    ensures ClockLayout(r)
  {
    var hours := totalSeconds / 3600;
    var minutes := (totalSeconds % 3600) / 60;
    var seconds := totalSeconds % 60;
    assert (hours, minutes, seconds) == Split3(totalSeconds);
    SplitText(totalSeconds, hours, minutes, seconds);
    Pad2(hours) + ":" + Pad2(minutes) + ":" + Pad2(seconds)
  }

  /** The two copies of `formatSecondsToHHMMSS` agree on every count of seconds. */
  lemma FormatCopiesAgree(totalSeconds: nat)
    ensures FormatSecondsToHHMMSS(totalSeconds) == TotalTime.FormatSecondsToHHMMSS(totalSeconds)
  {
  }
}
