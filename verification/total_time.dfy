/**
 * helpers/get_total_time.mjs: the exact duration reader
 * `getSecondsFromDuration`, the total of a list of durations, and the
 * HH:MM:SS formatter `formatSecondsToHHMMSS`.
 */
module TotalTime {
  import opened Wrappers
  import opened Decimal
  import opened DurationMatch
  import opened DurationGrammar
  import opened Clock

  /** A present group adds its number times its unit's weight; an absent one adds nothing. */
  function GroupSeconds(g: Option<string>, u: char, weight: nat): (r: nat)
    requires GroupOk(g, u) && !IsDigit(u)
    ensures r == GroupCount(g, u) * weight
  {
    if g.Some? && g.value != [] then
      GroupParse(g.value, u);
      ParseInt(g.value) * weight
    else
      0
  }

  /**
   * `getSecondsFromDuration`: reads only groups 1 to 3 of the match, so the
   * result is `3600 * H + 60 * M + S` over the leading `[Nh][Nm][Ns]` text,
   * absent components counting zero.
   */
  function GetSecondsFromDuration(duration: string): (r: nat)
    ensures r == MatchSeconds(Exec(duration).value)
  {
    var timeParts := Exec(duration).value;
    GroupSeconds(timeParts.hours, 'h', 3600)
      + GroupSeconds(timeParts.minutes, 'm', 60)
      + GroupSeconds(timeParts.seconds, 's', 1)
  }

  /** A rendered token, followed by anything that cannot extend it, reads back as the token's seconds. */
  lemma GetSecondsOnRendered(t: Token, rest: string)
    requires Delimited(t, rest)
    ensures GetSecondsFromDuration(Render(t) + rest) == TokenSeconds(t)
  {
    ExecOnRendered(t, rest);
    PartGroupCount(t.hours, 'h');
    PartGroupCount(t.minutes, 'm');
    PartGroupCount(t.seconds, 's');
  }

  lemma PartGroupCount(c: Option<nat>, u: char)
    requires u in "hms"
    ensures GroupOk(PartGroup(c, u), u) && GroupCount(PartGroup(c, u), u) == Count(c)
  {
    if c.Some? {
      var d := NatToString(c.value);
      assert Part(c, u)[..|Part(c, u)| - 1] == d;
    }
  }

  /** Text with no leading `[Nh][Nm][Ns]` component (the empty string included) is worth zero. */
  lemma GetSecondsWithoutPrefix(duration: string)
    requires Exec(duration).value.whole == []
    ensures GetSecondsFromDuration(duration) == 0
  {
  }

  /** Folding addition over the list from the left, starting at `acc`: a running total. */
  function Reduce(xs: seq<nat>, acc: nat): nat
    decreases |xs|
  {
    if xs == [] then acc else Reduce(xs[1..], acc + xs[0])
  }

  /** The plain sum, the reference for `Reduce`. */
  function Sum(xs: seq<nat>): nat
    decreases |xs|
  {
    if xs == [] then 0 else xs[0] + Sum(xs[1..])
  }

  lemma {:induction false} ReduceIsSum(xs: seq<nat>, acc: nat)
    ensures Reduce(xs, acc) == acc + Sum(xs)
    decreases |xs|
  {
    if xs != [] {
      ReduceIsSum(xs[1..], acc + xs[0]);
    }
  }

  lemma {:induction false} SumAppend(a: seq<nat>, b: seq<nat>)
    ensures Sum(a + b) == Sum(a) + Sum(b)
    decreases |a|
  {
    if a == [] {
      assert a + b == b;
    } else {
      SumAppend(a[1..], b);
      assert (a + b)[1..] == a[1..] + b;
    }
  }

  /** `Array.prototype.map` with a pure callback. */
  function Map<T, U>(f: T -> U, xs: seq<T>): (r: seq<U>)
    ensures |r| == |xs|
    ensures forall i :: 0 <= i < |xs| ==> r[i] == f(xs[i])
  {
    seq(|xs|, i requires 0 <= i < |xs| => f(xs[i]))
  }

  /** Mapping distributes over concatenation. */
  lemma MapAppend<T, U>(f: T -> U, a: seq<T>, b: seq<T>)
    ensures Map(f, a + b) == Map(f, a) + Map(f, b)
  {
    var all, left, right := Map(f, a + b), Map(f, a), Map(f, b);
    forall i | 0 <= i < |all|
      ensures all[i] == (left + right)[i]
    {
      if i < |a| {
        assert (a + b)[i] == a[i];
      } else {
        assert (a + b)[i] == b[i - |a|];
      }
    }
  }

  /** The exact seconds of each item's duration, in list order. */
  function SecondsArray(durations: seq<string>): (r: seq<nat>)
    ensures |r| == |durations|
    ensures forall i :: 0 <= i < |r| ==> r[i] == GetSecondsFromDuration(durations[i])
  {
    Map(GetSecondsFromDuration, durations)
  }

  /** The total over the list: addition folded from the left over the per-item seconds, starting at 0. */
  function TotalSeconds(durations: seq<string>): nat {
    Reduce(SecondsArray(durations), 0)
  }

  /** The total is additive: one more item adds exactly its own parsed seconds. */
  lemma TotalSecondsAppend(a: seq<string>, b: seq<string>)
    ensures TotalSeconds(a + b) == TotalSeconds(a) + TotalSeconds(b)
  {
    var all, left, right := SecondsArray(a + b), SecondsArray(a), SecondsArray(b);
    ReduceIsSum(all, 0);
    ReduceIsSum(left, 0);
    ReduceIsSum(right, 0);
    MapAppend(GetSecondsFromDuration, a, b);
    SumAppend(left, right);
  }

  lemma TotalSecondsOne(d: string)
    ensures TotalSeconds([d]) == GetSecondsFromDuration(d)
  {
    var xs := SecondsArray([d]);
    assert xs[1..] == [];
    assert Reduce(xs, 0) == Reduce([], xs[0]);
  }

  /**
   * `formatSecondsToHHMMSS`: hours, minutes and seconds, each `String(n)`
   * padded with '0' to two characters, joined by ':'. Reading the text back
   * gives `totalSeconds`; below 100 hours it is exactly "HH:MM:SS".
   */
  function FormatSecondsToHHMMSS(totalSeconds: nat): (r: string)
    ensures ReadClock(r) == Some(totalSeconds)
    ensures totalSeconds < 360000 ==> |r| == 8 && r[2] == ':' && r[5] == ':'
    ensures ClockLayout(r)
  {
    var f := Split3(totalSeconds);
    SplitText(totalSeconds, f.0, f.1, f.2);
    Pad2(f.0) + ":" + Pad2(f.1) + ":" + Pad2(f.2)
  }
}
