# streambean-api: durations, the daily VOD schedule and the live-segment sweep

This project is a Dafny model of the pure logic inside the streambean-api proxy. The rest of the repository is network I/O.

- **Two duration parsers.**
  - `parseDuration` is in helpers/epg.mjs.
  - `getSecondsFromDuration` is in helpers/get_total_time.mjs, with an identical copy in helpers/format.mjs.
  - Both apply the unanchored regular expression `(\d+h)?(\d+m)?(\d+s)?` to a duration string such as `"1h2m3s"`.
- **`createSchedule`.** It fills one day, 86400 seconds from local midnight. It plays a VOD catalog round and round and cuts the last entry at the end of the day.
- **The HH:MM:SS formatter.** `formatSecondsToHHMMSS` has two copies, plus the total of a list of durations.
- **`adjustScheduleItems`** (index.js). It stably sorts live schedule segments by start time. It then sweeps them against the last segment kept: a segment starting before that segment's end is moved to start there. A segment whose span then equals the last kept one's is dropped.

## Modules

| module | what it holds |
|---|---|
| `Wrappers`, `JsValue` | `Option`, `Result`, JavaScript values and truthiness |
| `Decimal` | digit runs, `parseInt`, `String(n)`, `padStart`, `split` |
| `DurationMatch` | the regex as a greedy prefix parser, and the match array it returns |
| `DurationGrammar` | a reference grammar of duration tokens (`Render`, `TokenSeconds`) |
| `Epg` | `parseDuration` and `createSchedule` |
| `Cyclic` | the `i % n` walk round the catalog and its termination measure |
| `ScheduleTiming` | the closed form of the schedule's timeline |
| `DurationRelation` | how `parseDuration` relates to `getSecondsFromDuration` |
| `Clock`, `TotalTime` | helpers/get_total_time.mjs |
| `Format` | helpers/format.mjs |
| `Reconcile` | `adjustScheduleItems` |

## Where the code and its documentation disagree (the model follows the code)

- **`parseDuration` over-counts.** `matches.forEach` also visits element 0, the whole matched prefix. That element adds the prefix's leading number weighted by the unit of its last character. So `"1h2m3s"` gives 3724, `"45m"` gives 5400 and `"1h30m"` gives 5460 (`DurationRelation.ParseDurationOvercounts`).
- **The format error is never thrown.** The regex matches every string, at worst the empty prefix at position 0. So "Invalid duration string format" cannot be thrown. A string without a leading component parses to 0.
- **There is no empty-catalog error.** For an empty VOD array, `createSchedule` fails with the missing-duration error at its first iteration.
- **The loop can run forever.** Nothing in `createSchedule` stops it when every element of a non-empty catalog parses to zero seconds. `Epg.CreateSchedule` requires `Epg.Halts`: the catalog is empty, or some element either aborts the loop or advances the cursor. Under the assumptions listed in "Left out" (a category that names a channel, and every `thumbnailUrl` absent or a string), that is exactly the condition under which the loop ends.
- **Duplicates are not collapsed.** `adjustScheduleItems` drops a segment only when its clamped span equals the last kept one's. Two distinct but identical segment objects of positive length therefore both stay: the second becomes the zero-length span at the first one's end. The same object listed twice behaves differently (see "Left out").
- **Only neighbours are separated.** The sweep separates neighbours only. Kept segments can still overlap non-adjacent ones, and a clamped segment can end before it starts.

## Model

| member | source | states |
|---|---|---|
| `Epg.ParseDuration` | helpers/epg.mjs:10-20 | throws "Invalid duration string" exactly when the argument is not a string; the format error is never thrown |
| `Epg.GroupContribution` | helpers/epg.mjs:24-39 | the callback adds a present hour, minute or second group's number times 3600, 60 or 1, and nothing for an absent group |
| `DurationRelation.WholeContribution` | helpers/epg.mjs:24-41 | the callback on element 0 adds the first component's number weighted by the unit of the match's last character |
| `DurationRelation.MatchTotalSplit` | helpers/epg.mjs:24-41 | that four-element sum is `3600*H + 60*M + S` plus the over-count from element 0 |
| `DurationRelation.ParseDurationOvercounts` | helpers/epg.mjs:10-44 | for every string, `parseDuration` equals `getSecondsFromDuration` plus the over-count (zero for an empty match) |
| `DurationRelation.ParseDurationOnRendered` | helpers/epg.mjs:10-44 | on a duration written h, m, s in order, the result is the duration's seconds plus its first number weighted by its last unit |
| `DurationRelation.ParseDurationExactIff` | helpers/epg.mjs:24-41 | the two parsers agree on such a duration if and only if its first number is zero |
| `DurationRelation.NoLeadingComponent` | helpers/epg.mjs:15-22 | text that is empty or starts with a non-digit gives 0 from both parsers, with no error |
| `DurationRelation.FullDurationExample` | helpers/epg.mjs:24-41 | "1h2m3s" gives 3724 from `parseDuration` and 3723 from `getSecondsFromDuration` |
| `DurationRelation.MinutesOnlyExample` | helpers/epg.mjs:24-41 | "45m" gives 5400 and 2700 |
| `DurationRelation.HoursMinutesExample` | helpers/epg.mjs:24-41 | "1h30m" gives 5460 and 5400 |
| `DurationRelation.OutOfOrderExample` | helpers/get_total_time.mjs:7-18 | "3s1h" reads only the leading "3s": 3 exactly, 6 from `parseDuration` |
| `DurationMatch.Exec` | helpers/epg.mjs:15-16 | `match` always succeeds; the whole match is a prefix of the input and is the concatenation of the three well-formed groups |
| `DurationMatch.ExecGroups` | helpers/epg.mjs:15-16 | the hours group is the greedy group at the start of the input, the minutes group the greedy group right after it, and the seconds group the greedy group after both |
| `DurationMatch.GroupPrefix` | helpers/epg.mjs:15 | a captured group is digits then its unit letter, and is a prefix of the text it was tried on |
| `DurationMatch.GroupPrefixAbsent` | helpers/epg.mjs:15 | the greedy group is absent exactly when no prefix of the text is a group: greediness loses no match |
| `DurationMatch.GroupIsGreedyRun` | helpers/epg.mjs:15 | any group at the start of the text is the maximal digit run followed by the unit |
| `DurationMatch.GroupParse` | helpers/epg.mjs:26 | `parseInt` of a group, with or without its unit letter, is the group's number |
| `DurationMatch.WholeShape` | helpers/epg.mjs:24-26 | a non-empty whole match starts with a digit and has at least two characters |
| `DurationGrammar.ExecOnRendered` | helpers/epg.mjs:15-16 | the regex reads a written duration back component by component, whatever follows it that cannot extend it |
| `Decimal.DigitRun` | helpers/epg.mjs:15 | the length of the maximal run of digits at a position, as `\d+` consumes it |
| `Decimal.ParseIntDigitsThen` | helpers/epg.mjs:26 | `parseInt` of digits followed by a non-digit or the end is the value of those digits |
| `Decimal.NatToString` | helpers/get_total_time.mjs:39 | `String(n)` is a digit string without leading zeros whose value is `n` |
| `Decimal.PadStart` | helpers/get_total_time.mjs:39 | `padStart` puts fill characters in front up to the width and keeps the string at the end |
| `Epg.VodDuration` | helpers/epg.mjs:72-77 | a falsy VOD or a falsy duration aborts with the missing-duration error; a truthy non-string duration aborts with the parse error; a non-empty string gives its parsed length |
| `Epg.Fill` | helpers/epg.mjs:69-120 | under the assumptions listed in "Left out" (known category, `thumbnailUrl` absent or a string): the loop from any index and cursor builds a contiguous timeline to the end of the day, entry `k` from the element `k` steps on; an error is some element's error, and with no failing element anywhere in the catalog there is none |
| `Epg.CreateSchedule` | helpers/epg.mjs:57-122 | for a category that names a channel and VODs whose `thumbnailUrl` is absent or a string: a non-array and an empty array throw; a result is a non-empty contiguous timeline from midnight to midnight + 86400, with entry `k` built from `vods[k % n]` with its fields copied; an error is the error of some element; with no failing element anywhere in the catalog there is no error |
| `Epg.FromIndexZero` | helpers/epg.mjs:69-70 | the run from index 0 reads element `k % n` at iteration `k` |
| `Cyclic.CycleIsMod` | helpers/epg.mjs:70 | stepping the index `k` times from `p` lands on `(p + k) % n` |
| `Cyclic.DistStep` | helpers/epg.mjs:69 | passing an element that does not advance the cursor brings the next one that does closer: the termination measure |
| `ScheduleTiming.StartOffset` | helpers/epg.mjs:78-82 | entry `k` starts at midnight plus the first `k` durations taken round the catalog |
| `ScheduleTiming.TimelineOffsets` | helpers/epg.mjs:62-119 | a chained timeline follows the offsets: each entry ends where the next offset is, and the count is the least `k` whose offset reaches 86400 |
| `ScheduleTiming.BuiltChained` | helpers/epg.mjs:77-78 | each entry's end is the earlier of its start plus its VOD's parsed duration and the end of the day |
| `ScheduleTiming.CreateScheduleOffsets` | helpers/epg.mjs:57-122 | the schedule `createSchedule` returns follows that closed form |
| `ScheduleTiming.FillErrorReached` | helpers/epg.mjs:69-78 | an error of the loop run from iteration `j` is the error of an element it reaches: every iteration before it succeeded and the cursor had not yet reached the end of the day |
| `ScheduleTiming.FillOkReached` | helpers/epg.mjs:69-78 | when the loop run from iteration `j` succeeds, no element it reaches fails |
| `ScheduleTiming.CreateScheduleFirstError` | helpers/epg.mjs:69-78 | under the same assumptions, `createSchedule` fails exactly when an iteration it reaches fails, and then with that iteration's error: elements the day ends before are never read |
| `TotalTime.GroupSeconds` | helpers/get_total_time.mjs:10-18 | a present group adds its number times its weight; an absent one adds nothing |
| `TotalTime.GetSecondsFromDuration` | helpers/get_total_time.mjs:6-21 | the result is `3600*H + 60*M + S` over the match's groups, absent groups counting zero |
| `TotalTime.GetSecondsOnRendered` | helpers/get_total_time.mjs:6-21 | a written duration followed by text that cannot extend it reads back as exactly its seconds |
| `TotalTime.GetSecondsWithoutPrefix` | helpers/get_total_time.mjs:7-20 | text with no leading component, the empty string included, is worth 0 |
| `TotalTime.ReduceIsSum` | helpers/get_total_time.mjs:31 | the `reduce` running total from `acc` is `acc` plus the sum |
| `TotalTime.TotalSecondsAppend` | helpers/get_total_time.mjs:25-31 | the total of two lists joined is the sum of their totals |
| `TotalTime.TotalSecondsOne` | helpers/get_total_time.mjs:25-31 | the total of one duration is its parsed seconds |
| `TotalTime.FormatSecondsToHHMMSS` | helpers/get_total_time.mjs:34-40 | reading the "H:M:S" text back gives the input; the text is three digit fields, minutes and seconds two digits below 60, hours at least two digits with no extra leading zero; below 100 hours it is 8 characters with colons at positions 2 and 5 |
| `Clock.Split3` | helpers/get_total_time.mjs:35-37 | hours, minutes and seconds recombine to the input, with minutes and seconds below 60 |
| `Clock.Pad2` | helpers/get_total_time.mjs:39 | a padded field is all digits, at least two long, denotes its number and holds no colon; below 100 it is exactly two long, and from 10 on it has no leading zero |
| `Clock.ClockText` | helpers/get_total_time.mjs:39 | three padded fields joined by colons read back as `h*3600 + m*60 + s` |
| `Clock.ClockTextLayout` | helpers/get_total_time.mjs:35-39 | three padded fields, minutes and seconds below 60, joined by colons have the "HH:MM:SS" field layout for every number of hours |
| `Clock.SplitText` | helpers/get_total_time.mjs:35-39 | for any split of `t` into hours and minutes and seconds below 60, the padded text reads back as `t`, has the field layout, and below 360000 seconds is "HH:MM:SS" |
| `Format.AddPart` | helpers/format.mjs:5-13 | one step adds the group's number times its unit's weight, or nothing for an absent group |
| `Format.GetSecondsFromDuration` | helpers/format.mjs:1-16 | `3600*H + 60*M + S` over the match's groups |
| `Format.GetSecondsCopiesAgree` | helpers/format.mjs:1-16 | the two copies of `getSecondsFromDuration` agree on every string |
| `Format.FormatSecondsToHHMMSS` | helpers/format.mjs:23-29 | the text reads back as the input and has the field layout (minutes and seconds two digits below 60, hours with no extra leading zero); below 100 hours it is "HH:MM:SS" |
| `Format.FormatCopiesAgree` | helpers/format.mjs:23-29 | the two copies of `formatSecondsToHHMMSS` agree on every count of seconds |
| `Reconcile.SortByStart` | index.js:165-168 | the sort keeps the length and orders the segments by start |
| `Reconcile.SortPermutes` | index.js:165-168 | the sort is a permutation: the same multiset of segments |
| `Reconcile.SortStable` | index.js:165-168 | segments that share a start keep their input order |
| `Reconcile.StableSortUnique` | index.js:165-168 | two start-ordered sequences with the same segments at every start are equal, so the sort is the one stable sort |
| `Reconcile.SortSortedUnchanged` | index.js:165-168 | input already in start order is left as it is |
| `Reconcile.ClampStartOnly` | index.js:176-180 | a segment starting before the last kept end is moved to start exactly there; otherwise it is untouched; its end and other fields never change |
| `Reconcile.Sweep` | index.js:175-188 | the first kept segment starts no earlier than the last kept end and differs from it in span; kept neighbours are separated |
| `Reconcile.SweepClamped` | index.js:175-188 | each kept segment is a segment of the input, in order, clamped against the segment kept before it; a segment is left out only when its clamped span equals the last kept one's |
| `Reconcile.SweepUnique` | index.js:175-188 | any such in-order clamped selection whose neighbours are separated is the sweep's output: the description determines it |
| `Reconcile.AdjustScheduleItems` | index.js:164-191 | the output is no longer than the input, empty only for empty input, starts with the first sorted segment unchanged, and each neighbour ends no later than the next starts, without repeating its span |
| `Reconcile.AdjustClamped` | index.js:170-190 | after the first, the output is drawn in order from the sorted segments, each clamped against its predecessor; a segment is left out only when its clamped span equals the last kept one's |
| `Reconcile.AdjustCharacterized` | index.js:164-191 | a sequence is the output if and only if it starts with the first sorted segment, continues with such a clamped selection of the rest, and keeps its neighbours separated |
| `Reconcile.AdjustAfterSort` | index.js:165-170 | only the sorted order of the input matters |
| `Reconcile.AdjustUnchangedIff` | index.js:170-190 | the output is the sorted input if and only if the sorted input is already separated |
| `Reconcile.AdjustSeparatedUnchanged` | index.js:164-191 | separated input in start order comes back as it is |
| `Reconcile.SweepKeepsDistinctEnds` | index.js:181-188 | when no two segments share an end, the sweep drops nothing |
| `Reconcile.AdjustKeepsDistinctEnds` | index.js:181-188 | when no two sorted segments share an end, every segment is kept |
| `Reconcile.DuplicateBecomesEmpty` | index.js:178-188 | two copies of a positive-length segment give the segment and then the zero-length span at its end |
| `Reconcile.OverlapExample` | index.js:164-191 | [15,25], [20,30], [10,20] give [10,20], [20,25], [25,30] |
| `Reconcile.NonAdjacentOverlapExample` | index.js:175-188 | [0,10], [2,5], [3,8] give [0,10], [10,5], [5,8]: the third overlaps the first, and the second ends before it starts |

## Left out

- The HTTP layer is not modelled: the Express routes, middleware, controllers, the Twitch and pocketbase services, and token caching. These are network I/O.
- `Date` handling is replaced by integer seconds.
  - A schedule time is `midnight + offset`, with `midnight` a parameter standing for the local midnight that `setHours(0, 0, 0, 0)` computes.
  - `toISOString` and time zones are not modelled.
- Reconcile.AdjustScheduleItems compares integer timestamps, while the source compares ISO strings with `===`. A clamped start is rewritten by `toISOString`, with milliseconds, so the string test can see two equal instants as different when one side was clamped and the other was not. The model treats equal instants as equal.
- These entry fields are not modelled:
  - the `uuidv4` id;
  - `Year`, which comes from the clock;
  - `Genre`, which is looked up in channels.mjs (channels.mjs is not part of this model). The lookup at helpers/epg.mjs:97 reads `.title` of the channel found for the category, and throws a TypeError when no channel has that category. Epg.CreateSchedule assumes a category that names a channel; that throw is not modelled;
  - `image`, the thumbnail URL substitution. At helpers/epg.mjs:91 a `thumbnailUrl` that is neither null/undefined nor a string (a number, a boolean, a plain object) has no `replace` method, so the entry throws a TypeError in the same iteration, after the duration checks. Epg.CreateSchedule assumes every VOD's `thumbnailUrl` is absent or a string; that throw is not modelled;
  - the constant fields (`country`, `Rated`, `Writer`, `Ratings`, …).
- The top-level file reads and `console.log` calls in helpers/get_total_time.mjs are not modelled. The model takes the list of durations as a parameter.
- `getTimespan` and `extractSecondsFromJson` in helpers/format.mjs are not modelled. They refer to names that are not defined.
- Numbers are unbounded. JavaScript's double precision (for very long digit runs or huge totals) is not modelled.
- The model's `parseInt` is applied only to text that starts with a digit, which is all the regex can capture. Its handling of leading whitespace and signs is not needed.
- TotalTime.GetSecondsFromDuration and Format.GetSecondsFromDuration take a string. The source would throw on a value without a `match` method. That case is left out.
- TotalTime.FormatSecondsToHHMMSS and Format.FormatSecondsToHHMMSS take a natural number. Negative or fractional totals are left out: `Math.floor` and `%` on them are not modelled.
- Epg.Fill and Epg.CreateSchedule: their own contracts state the error path one way only (an error is some element's error; no failing element anywhere means no error). Which element's error is returned, and that elements the day ends before are never read, is stated separately by ScheduleTiming.FillErrorReached, ScheduleTiming.FillOkReached and ScheduleTiming.CreateScheduleFirstError.
- DurationMatch.Exec: its own contract fixes only the shape of the match; the greedy chaining of the three groups is stated by DurationMatch.ExecGroups.
- Epg.CreateSchedule requires `Halts`. Under the assumptions listed in this section (a category that names a channel, every `thumbnailUrl` absent or a string), that is the exact condition under which the source's loop ends. The catalogs on which the source loops forever are outside the model.
- The in-place sort and the in-place change of `start_time` are modelled as pure functions that return new sequences. Segments are values, so object identity is not modelled. In the source, the same object listed twice yields ONE zero-length entry: the write at index.js:179 also changes the copy already kept, so the two spans are equal and the second is dropped. The model's duplicate statements (Reconcile.DuplicateBecomesEmpty) are about distinct objects.
- `getBroadcasterSchedules` renames `start_time`/`end_time` to `since`/`till` before the sweep runs. The sweep is modelled on its own fields, not on that pipeline.
