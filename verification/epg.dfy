/**
 * helpers/epg.mjs: `parseDuration` and `createSchedule`, which fills one day
 * (86400 seconds from local midnight) by playing a VOD catalog round and round.
 *
 * Times are whole seconds: an entry's `since`/`till` is `midnight + offset`,
 * where `midnight` stands for the `Date` set to local midnight of the day the
 * schedule is built.
 */
module Epg {
  import opened Wrappers
  import opened JsValue
  import opened Decimal
  import opened DurationMatch
  import opened Cyclic

  /** The two errors `parseDuration` can throw. */
  datatype DurationError = InvalidDurationString | InvalidDurationStringFormat

  /**
   * The `forEach` callback applied to every element of the match array,
   * including element 0 (the whole match): a non-empty element adds
   * `parseInt(all but its last character)` weighted by its last character.
   */
  function Contribution(element: Option<string>): nat
    requires element.None? || element.value == [] || (|element.value| >= 2 && IsDigit(element.value[0]))
  {
    if element.Some? && element.value != [] then
      var value := ParseInt(element.value[..|element.value| - 1]);
      var unit := element.value[|element.value| - 1];
      Weigh(value, unit)
    else
      0
  }

  /** What element 1 to 3 of the match adds in the callback: its number times its unit's weight. */
  lemma GroupContribution(g: Option<string>, u: char)
    requires GroupOk(g, u) && u in "hms"
    ensures g.None? || (|g.value| >= 2 && IsDigit(g.value[0]))
    ensures Contribution(g) == Weigh(GroupCount(g, u), u)
  {
    if g.Some? {
      GroupParse(g.value, u);
    }
  }

  /**
   * `parseDuration`: throws for a non-string; for a string the regex always
   * matches, so the format error is never thrown and the result is the sum
   * of the callback over all four match elements.
   */
  function ParseDuration(durationStr: Value): (r: Result<nat, DurationError>)
    ensures r.Err? <==> !durationStr.Str?
    ensures r.Err? ==> r.error == InvalidDurationString
  {
    var formatError: Result<nat, DurationError> := Err(InvalidDurationStringFormat);
    if !durationStr.Str? then
      Err(InvalidDurationString)
    else
      match Exec(durationStr.s)
      case None => formatError
      case Some(matches) => Ok(MatchTotal(matches))
  }

  /** The callback summed over the four elements of a match array. */
  function MatchTotal(matches: MatchArray): nat
    requires WellFormed(matches)
  {
    WholeShape(matches);
    GroupContribution(matches.hours, 'h');
    GroupContribution(matches.minutes, 'm');
    GroupContribution(matches.seconds, 's');
    Contribution(Some(matches.whole))
    + Contribution(matches.hours)
    + Contribution(matches.minutes)
    + Contribution(matches.seconds)
  }

  /** Length of the day being filled, in seconds. */
  const TotalDuration: nat := 86400

  const NoDescription: string := "No description available"

  /** The VOD fields the schedule reads. */
  datatype Vod = Vod(
    duration: Value,
    title: Value,
    id: Value,
    createdAt: Value,
    publishedAt: Value,
    userLogin: Value,
    language: Value)

  /** The `vods` argument: not an array, or an array whose falsy elements are `None`. */
  datatype VodsArg = NotAnArray | VodArray(elements: seq<Option<Vod>>)

  /** The modelled fields of one schedule entry. */
  datatype Entry = Entry(
    description: Value,
    title: Value,
    since: int,
    till: int,
    channelUuid: string,
    released: Value,
    runtime: Value,
    director: Value,
    language: Value,
    imdbId: Value)

  datatype ScheduleError = InvalidVodsArray | InvalidVod | BadDuration(error: DurationError)

  /** One iteration's checks on its VOD: the parsed duration, or the error that aborts the call. */
  function VodDuration(vod: Option<Vod>): (r: Result<nat, ScheduleError>)
    ensures (vod.None? || !Truthy(vod.value.duration)) ==> r == Err(InvalidVod)
    ensures vod.Some? && Truthy(vod.value.duration) && !vod.value.duration.Str? ==> r == Err(BadDuration(InvalidDurationString))
    ensures vod.Some? && vod.value.duration.Str? && vod.value.duration.s != [] ==> r == Ok(ParseDuration(vod.value.duration).value)
  {
    if vod.None? || !Truthy(vod.value.duration) then
      Err(InvalidVod)
    else
      match ParseDuration(vod.value.duration)
      case Ok(d) => Ok(d)
      case Err(e) => Err(BadDuration(e))
  }

  /** An iteration that either stops the loop with an error or moves the cursor forward. */
  predicate Advances(duration: Result<nat, ScheduleError>) {
    duration.Err? || duration.value > 0
  }

  /**
   * The loop terminates: the source has no guard, and it runs forever exactly
   * when the array is non-empty and every element parses to zero seconds.
   */
  predicate Halts(vods: seq<Option<Vod>>) {
    |vods| == 0 || exists k :: 0 <= k < |vods| && Advances(VodDuration(vods[k]))
  }

  /**
   * What each element's iteration finds. The loop evaluates this lazily, one
   * element per iteration; it is pure, so computing it up front reads the
   * same values and the loop below still looks only at the elements it reaches.
   */
  function Durations(vods: seq<Option<Vod>>): (ds: seq<Result<nat, ScheduleError>>)
    ensures |ds| == |vods|
    ensures forall k :: 0 <= k < |vods| ==> ds[k] == VodDuration(vods[k])
  {
    seq(|vods|, k requires 0 <= k < |vods| => VodDuration(vods[k]))
  }

  /** Which elements advance, for the termination measure. */
  function Marks(durs: seq<Result<nat, ScheduleError>>): (m: seq<bool>)
    ensures |m| == |durs|
    ensures forall k :: 0 <= k < |durs| ==> m[k] == Advances(durs[k])
  {
    seq(|durs|, k requires 0 <= k < |durs| => Advances(durs[k]))
  }

  function Min(a: int, b: int): int {
    if a <= b then a else b
  }

  /** The entry pushed for `vod` between `since` and `till`. */
  function MakeEntry(vod: Vod, category: string, since: int, till: int): Entry {
    Entry(
      description := Or(vod.title, Str(NoDescription)),
      title := vod.title,
      since := since,
      till := till,
      channelUuid := category,
      released := Or(vod.createdAt, vod.publishedAt),
      runtime := vod.duration,
      director := vod.userLogin,
      language := vod.language,
      imdbId := vod.id)
  }

  /** Entry `e` is the one built from `vod` of parsed length `duration`, starting where it starts. */
  predicate BuiltFrom(e: Entry, vod: Option<Vod>, duration: Result<nat, ScheduleError>, category: string, midnight: int) {
    && vod.Some?
    && duration.Ok?
    && e.channelUuid == category
    && e.title == vod.value.title
    && e.description == (if Truthy(vod.value.title) then vod.value.title else Str(NoDescription))
    && e.runtime == vod.value.duration
    && e.imdbId == vod.value.id
    && e.released == (if Truthy(vod.value.createdAt) then vod.value.createdAt else vod.value.publishedAt)
    && e.director == vod.value.userLogin
    && e.language == vod.value.language
    && e.till == Min(e.since + duration.value, midnight + TotalDuration)
  }

  /**
   * The timeline from cursor `start` on: contiguous, inside the day, first
   * entry at `midnight + start`, last one ending exactly at the end of the day.
   */
  predicate Timeline(es: seq<Entry>, midnight: int, start: nat) {
    && (start < TotalDuration ==> |es| > 0)
    && (|es| > 0 ==> es[0].since == midnight + start && es[|es| - 1].till == midnight + TotalDuration)
    && (forall k :: 0 <= k < |es| - 1 ==> es[k].till == es[k + 1].since)
    && (forall k :: 0 <= k < |es| ==>
          midnight + start <= es[k].since < midnight + TotalDuration && es[k].since <= es[k].till <= midnight + TotalDuration)
  }

  /** An entry from `currentTime` to `endTime` in front of a timeline from `endTime` on. */
  lemma TimelineCons(entry: Entry, rest: seq<Entry>, midnight: int, currentTime: nat, endTime: nat)
    requires currentTime < TotalDuration && currentTime <= endTime <= TotalDuration
    requires entry.since == midnight + currentTime && entry.till == midnight + endTime
    requires Timeline(rest, midnight, endTime)
    ensures Timeline([entry] + rest, midnight, currentTime)
  {
    var es := [entry] + rest;
    forall k | 0 <= k < |es| - 1
      ensures es[k].till == es[k + 1].since
    {
      if k > 0 {
        assert es[k] == rest[k - 1] && es[k + 1] == rest[k];
      }
    }
  }

  /** Entry `k` of `[entry] + rest` comes from `k` indices after `p` when `rest` starts one index later. */
  lemma BuiltCons(entry: Entry, rest: seq<Entry>, vods: seq<Option<Vod>>, durs: seq<Result<nat, ScheduleError>>,
                  p: nat, category: string, midnight: int)
    requires p < |vods| == |durs|
    requires BuiltFrom(entry, vods[p], durs[p], category, midnight)
    requires forall k :: 0 <= k < |rest| ==>
      var c := Cycle(|vods|, Next(|vods|, p), k); BuiltFrom(rest[k], vods[c], durs[c], category, midnight)
    ensures forall k :: 0 <= k < |rest| + 1 ==>
      var c := Cycle(|vods|, p, k); BuiltFrom(([entry] + rest)[k], vods[c], durs[c], category, midnight)
  {
    forall k | 0 <= k < |rest| + 1
      ensures var c := Cycle(|vods|, p, k); BuiltFrom(([entry] + rest)[k], vods[c], durs[c], category, midnight)
    {
      if k > 0 {
        assert ([entry] + rest)[k] == rest[k - 1];
        assert Cycle(|vods|, p, k) == Cycle(|vods|, Next(|vods|, p), k - 1);
      }
    }
  }

  /**
   * The `for` loop from the iteration that reads index `p`, with the cursor
   * at `currentTime`: entry `k` comes from the element `k` indices further
   * round the catalog; the first failing element reached aborts the call.
   */
  function Fill(vods: seq<Option<Vod>>, durs: seq<Result<nat, ScheduleError>>, category: string, midnight: int,
                p: nat, currentTime: nat)
    : (r: Result<seq<Entry>, ScheduleError>)
    requires p < |vods| == |durs| && AnyMarked(Marks(durs)) && currentTime <= TotalDuration
    requires forall k :: 0 <= k < |durs| && durs[k].Ok? ==> vods[k].Some?
    ensures r.Ok? ==> Timeline(r.value, midnight, currentTime)
    ensures r.Ok? ==> forall k :: 0 <= k < |r.value| ==>
      var c := Cycle(|vods|, p, k); BuiltFrom(r.value[k], vods[c], durs[c], category, midnight)
    ensures r.Err? ==> exists k :: 0 <= k < |durs| && durs[k] == Err(r.error)
    ensures (forall k :: 0 <= k < |durs| ==> durs[k].Ok?) ==> r.Ok?
    decreases TotalDuration - currentTime, Dist(Marks(durs), p)
  {
    if currentTime >= TotalDuration then
      Ok([])
    else
      var vod := vods[p];
      match durs[p]
      case Err(e) => Err(e)
      case Ok(duration) =>
        var endTime := Min(currentTime + duration, TotalDuration);
        var entry := MakeEntry(vod.value, category, midnight + currentTime, midnight + endTime);
        DistStep(Marks(durs), p);
        match Fill(vods, durs, category, midnight, Next(|vods|, p), endTime)
        case Err(e) => Err(e)
        case Ok(rest) =>
          TimelineCons(entry, rest, midnight, currentTime, endTime);
          BuiltCons(entry, rest, vods, durs, p, category, midnight);
          Ok([entry] + rest)
  }

  /**
   * `createSchedule(vods, category)`: a non-array throws; an empty array
   * throws at its first element (`vods[0 % 0]` is `undefined`); otherwise the
   * loop runs from iteration 0 with the cursor at 0.
   */
  function CreateSchedule(vods: VodsArg, category: string, midnight: int): (r: Result<seq<Entry>, ScheduleError>)
    requires vods.VodArray? ==> Halts(vods.elements)
    ensures vods.NotAnArray? ==> r == Err(InvalidVodsArray)
    ensures vods.VodArray? && |vods.elements| == 0 ==> r == Err(InvalidVod)
    ensures r.Ok? ==> vods.VodArray? && |r.value| > 0 && Timeline(r.value, midnight, 0)
    ensures r.Ok? ==> forall k :: 0 <= k < |r.value| ==>
      var vod := vods.elements[k % |vods.elements|]; BuiltFrom(r.value[k], vod, VodDuration(vod), category, midnight)
    ensures r.Err? && vods.VodArray? && |vods.elements| > 0 ==>
      exists k :: 0 <= k < |vods.elements| && VodDuration(vods.elements[k]) == Err(r.error)
    ensures vods.VodArray? && |vods.elements| > 0 && (forall k :: 0 <= k < |vods.elements| ==> VodDuration(vods.elements[k]).Ok?) ==> r.Ok?
  {
    match vods
    case NotAnArray => Err(InvalidVodsArray)
    case VodArray(elements) =>
      if |elements| == 0 then Err(InvalidVod)
      else
        var durs := Durations(elements);
        HaltsMarked(elements);
        var r := Fill(elements, durs, category, midnight, 0, 0);
        FromIndexZero(elements, durs, r, category, midnight);
        r
  }

  lemma HaltsMarked(vods: seq<Option<Vod>>)
    requires |vods| > 0 && Halts(vods)
    ensures AnyMarked(Marks(Durations(vods)))
    ensures forall k :: 0 <= k < |vods| && Durations(vods)[k].Ok? ==> vods[k].Some?
  {
    var k :| 0 <= k < |vods| && Advances(VodDuration(vods[k]));
    assert Marks(Durations(vods))[k];
  }

  /** The run from index 0 reads element `k % n` at iteration `k`. */
  lemma FromIndexZero(vods: seq<Option<Vod>>, durs: seq<Result<nat, ScheduleError>>, r: Result<seq<Entry>, ScheduleError>,
                      category: string, midnight: int)
    requires |vods| > 0 && durs == Durations(vods)
    requires r.Ok? ==> forall k :: 0 <= k < |r.value| ==>
      var c := Cycle(|vods|, 0, k); BuiltFrom(r.value[k], vods[c], durs[c], category, midnight)
    ensures r.Ok? ==> forall k :: 0 <= k < |r.value| ==>
      var vod := vods[k % |vods|]; BuiltFrom(r.value[k], vod, VodDuration(vod), category, midnight)
  {
    if r.Ok? {
      forall k | 0 <= k < |r.value|
        ensures var vod := vods[k % |vods|]; BuiltFrom(r.value[k], vod, VodDuration(vod), category, midnight)
      {
        var c := k % |vods|;
        assert BuiltFrom(r.value[k], vods[c], durs[c], category, midnight) by {
          CycleFromZero(|vods|, k);
        }
        assert durs[c] == VodDuration(vods[c]);
      }
    }
  }
}
