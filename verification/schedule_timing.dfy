/**
 * A closed form for the timeline `createSchedule` builds: entry `k` starts
 * at the sum of the first `k` durations taken round the catalog, and the
 * schedule has exactly as many entries as it takes for that sum to reach the
 * end of the day.
 */
module ScheduleTiming {
  import opened Wrappers
  import opened Epg
  import opened Cyclic

  /** Seconds taken by the first `k` iterations when element `j` lasts `ds[j]`. */
  function Offset(ds: seq<nat>, k: nat): nat
    requires |ds| > 0
  {
    if k == 0 then 0 else Offset(ds, k - 1) + ds[(k - 1) % |ds|]
  }

  /** The entries are chained by the rule the loop applies to each of them. */
  predicate Chained(es: seq<Entry>, ds: seq<nat>, midnight: int)
    requires |ds| > 0
  {
    forall k :: 0 <= k < |es| ==> es[k].till == Min(es[k].since + ds[k % |ds|], midnight + TotalDuration)
  }

  lemma {:induction false} StartOffset(es: seq<Entry>, ds: seq<nat>, midnight: int, k: nat)
    requires |ds| > 0 && k < |es|
    requires Timeline(es, midnight, 0) && Chained(es, ds, midnight)
    ensures es[k].since == midnight + Offset(ds, k)
    decreases k
  {
    if k > 0 {
      StartOffset(es, ds, midnight, k - 1);
      assert es[k - 1].till == es[k].since;
    }
  }

  /**
   * Entry `k` runs from `Offset(k)` to `Offset(k + 1)`, the last one cut at
   * the end of the day, and the entry count is the least `k` whose offset
   * reaches it.
   */
  predicate FollowsOffsets(es: seq<Entry>, ds: seq<nat>, midnight: int)
    requires |ds| > 0
  {
    && |es| > 0
    && (forall k {:trigger es[k]} :: 0 <= k < |es| ==> es[k].since == midnight + Offset(ds, k))
    && (forall k {:trigger es[k]} :: 0 <= k < |es| - 1 ==> es[k].till == midnight + Offset(ds, k + 1))
    && es[|es| - 1].till == midnight + TotalDuration
    && (forall k :: 0 <= k < |es| ==> Offset(ds, k) < TotalDuration)
    && TotalDuration <= Offset(ds, |es|)
  }

  lemma TimelineOffsets(es: seq<Entry>, ds: seq<nat>, midnight: int)
    requires |ds| > 0 && |es| > 0
    requires Timeline(es, midnight, 0) && Chained(es, ds, midnight)
    ensures FollowsOffsets(es, ds, midnight)
  {
    forall k | 0 <= k < |es|
      ensures es[k].since == midnight + Offset(ds, k)
    {
      StartOffset(es, ds, midnight, k);
    }
    forall k | 0 <= k < |es| - 1
      ensures es[k].till == midnight + Offset(ds, k + 1)
    {
      assert es[k].till == es[k + 1].since;
    }
    var last := |es| - 1;
    assert es[last].till == midnight + TotalDuration;
  }

  /** The seconds each outcome moves the cursor by; a failing one counts zero, as the loop stops there. */
  function Lengths(durs: seq<Result<nat, ScheduleError>>): (ds: seq<nat>)
    ensures |ds| == |durs|
    ensures forall j :: 0 <= j < |durs| && durs[j].Ok? ==> ds[j] == durs[j].value
  {
    seq(|durs|, j requires 0 <= j < |durs| => if durs[j].Ok? then durs[j].value else 0)
  }

  /** The duration each element contributes; elements the loop never reaches count zero. */
  function ParsedLengths(vods: seq<Option<Vod>>): (ds: seq<nat>)
    ensures |ds| == |vods|
    ensures forall j :: 0 <= j < |vods| && VodDuration(vods[j]).Ok? ==> ds[j] == VodDuration(vods[j]).value
  {
    Lengths(Durations(vods))
  }

  /** The schedule `createSchedule` returns follows the closed form over the parsed durations. */
  lemma CreateScheduleOffsets(vods: seq<Option<Vod>>, category: string, midnight: int)
    requires Halts(vods)
    requires CreateSchedule(VodArray(vods), category, midnight).Ok?
    ensures |vods| > 0
    ensures FollowsOffsets(CreateSchedule(VodArray(vods), category, midnight).value, ParsedLengths(vods), midnight)
  {
    var es, ds := CreateSchedule(VodArray(vods), category, midnight).value, ParsedLengths(vods);
    BuiltChained(es, vods, category, midnight);
    TimelineOffsets(es, ds, midnight);
  }

  /** Entries built from the catalog round by round follow the loop's rule over the parsed durations. */
  lemma BuiltChained(es: seq<Entry>, vods: seq<Option<Vod>>, category: string, midnight: int)
    requires |vods| > 0
    requires forall k :: 0 <= k < |es| ==>
      var vod := vods[k % |vods|]; BuiltFrom(es[k], vod, VodDuration(vod), category, midnight)
    ensures Chained(es, ParsedLengths(vods), midnight)
  {
    var ds := ParsedLengths(vods);
    forall k | 0 <= k < |es|
      ensures es[k].till == Min(es[k].since + ds[k % |ds|], midnight + TotalDuration)
    {
      var c := k % |vods|;
      var d := VodDuration(vods[c]);
      assert BuiltFrom(es[k], vods[c], d, category, midnight);
    }
  }
  lemma {:induction false} OffsetMonotone(ds: seq<nat>, j: nat, k: nat)
    requires |ds| > 0 && j <= k
    ensures Offset(ds, j) <= Offset(ds, k)
    decreases k
  {
    if j < k {
      OffsetMonotone(ds, j, k - 1);
    }
  }

  lemma OffsetStep(ds: seq<nat>, j: nat)
    requires |ds| > 0
    ensures Offset(ds, j + 1) == Offset(ds, j) + ds[j % |ds|]
  {
    assert (j + 1) - 1 == j;
  }

  /**
   * What iteration `k` finds when element `j` yields `durs[j]`: the outcome
   * for `vods[k % vods.length]`.
   */
  function At(durs: seq<Result<nat, ScheduleError>>, k: nat): Result<nat, ScheduleError>
    requires |durs| > 0
  {
    durs[k % |durs|]
  }

  /**
   * The loop reaches iteration `k`: every earlier iteration found a valid VOD,
   * and the seconds they took leave the cursor before the end of the day.
   */
  predicate Reaches(durs: seq<Result<nat, ScheduleError>>, k: nat)
    requires |durs| > 0
  {
    && (forall j :: 0 <= j < k ==> At(durs, j).Ok?)
    && Offset(Lengths(durs), k) < TotalDuration
  }

  /**
   * The loop from iteration `j` on, every earlier iteration having succeeded,
   * fails only with the error of an iteration it reaches.
   */
  lemma {:induction false} FillErrorReached(vods: seq<Option<Vod>>, durs: seq<Result<nat, ScheduleError>>,
                                            category: string, midnight: int, j: nat)
    requires 0 < |vods| == |durs| && AnyMarked(Marks(durs))
    requires forall k :: 0 <= k < |durs| && durs[k].Ok? ==> vods[k].Some?
    requires forall i :: 0 <= i < j ==> At(durs, i).Ok?
    ensures var r := Fill(vods, durs, category, midnight, j % |durs|, Min(Offset(Lengths(durs), j), TotalDuration));
      r.Err? ==> exists k :: j <= k && Reaches(durs, k) && At(durs, k) == Err(r.error)
    decreases TotalDuration - Min(Offset(Lengths(durs), j), TotalDuration), Dist(Marks(durs), j % |durs|)
  {
    var ds, p := Lengths(durs), j % |durs|;
    var t := Min(Offset(ds, j), TotalDuration);
    if Offset(ds, j) < TotalDuration {
      if durs[p].Err? {
        FailsHere(vods, durs, category, midnight, j);
      } else {
        StepForward(durs, j);
        FillErrorReached(vods, durs, category, midnight, j + 1);
        FillStep(vods, durs, category, midnight, p, t);
        var r := Fill(vods, durs, category, midnight, p, t);
        if r.Err? {
          var r' := Fill(vods, durs, category, midnight, (j + 1) % |durs|, Min(Offset(ds, j + 1), TotalDuration));
          var k :| j + 1 <= k && Reaches(durs, k) && At(durs, k) == Err(r'.error);
          assert j <= k;
        }
      }
    }
  }

  /**
   * The loop from iteration `j` on, every earlier iteration having succeeded,
   * fails whenever an iteration it reaches finds an invalid VOD.
   */
  lemma {:induction false} FillOkReached(vods: seq<Option<Vod>>, durs: seq<Result<nat, ScheduleError>>,
                                         category: string, midnight: int, j: nat)
    requires 0 < |vods| == |durs| && AnyMarked(Marks(durs))
    requires forall k :: 0 <= k < |durs| && durs[k].Ok? ==> vods[k].Some?
    requires forall i :: 0 <= i < j ==> At(durs, i).Ok?
    ensures Fill(vods, durs, category, midnight, j % |durs|, Min(Offset(Lengths(durs), j), TotalDuration)).Ok? ==>
      forall k :: j <= k && At(durs, k).Err? ==> !Reaches(durs, k)
    decreases TotalDuration - Min(Offset(Lengths(durs), j), TotalDuration), Dist(Marks(durs), j % |durs|)
  {
    var ds, p := Lengths(durs), j % |durs|;
    var t := Min(Offset(ds, j), TotalDuration);
    if Offset(ds, j) >= TotalDuration {
      PastEndOfDay(durs, j);
    } else if durs[p].Ok? {
      StepForward(durs, j);
      FillOkReached(vods, durs, category, midnight, j + 1);
      FillStep(vods, durs, category, midnight, p, t);
      if Fill(vods, durs, category, midnight, p, t).Ok? {
        forall k | j <= k && At(durs, k).Err?
          ensures !Reaches(durs, k)
        {
          assert k != j;
        }
      }
    } else {
      FailsHere(vods, durs, category, midnight, j);
    }
  }

  /** Once the cursor has reached the end of the day, no later iteration is reached. */
  lemma PastEndOfDay(durs: seq<Result<nat, ScheduleError>>, j: nat)
    requires |durs| > 0 && Offset(Lengths(durs), j) >= TotalDuration
    ensures forall k :: j <= k ==> !Reaches(durs, k)
  {
    forall k | j <= k
      ensures !Reaches(durs, k)
    {
      OffsetMonotone(Lengths(durs), j, k);
    }
  }

  /** A reached iteration whose element is invalid ends the loop with that element's error. */
  lemma FailsHere(vods: seq<Option<Vod>>, durs: seq<Result<nat, ScheduleError>>, category: string, midnight: int, j: nat)
    requires 0 < |vods| == |durs| && AnyMarked(Marks(durs))
    requires forall k :: 0 <= k < |durs| && durs[k].Ok? ==> vods[k].Some?
    requires forall i :: 0 <= i < j ==> At(durs, i).Ok?
    requires Offset(Lengths(durs), j) < TotalDuration && At(durs, j).Err?
    ensures Fill(vods, durs, category, midnight, j % |durs|, Min(Offset(Lengths(durs), j), TotalDuration)) == Err(At(durs, j).error)
    ensures Reaches(durs, j)
  {
  }

  /**
   * A reached iteration with a valid element: the next one is reached from
   * the next index, the cursor moves by the element's length, and the loop
   * comes closer to its end.
   */
  lemma StepForward(durs: seq<Result<nat, ScheduleError>>, j: nat)
    requires |durs| > 0 && AnyMarked(Marks(durs))
    requires forall i :: 0 <= i < j ==> At(durs, i).Ok?
    requires Offset(Lengths(durs), j) < TotalDuration && At(durs, j).Ok?
    ensures forall i :: 0 <= i < j + 1 ==> At(durs, i).Ok?
    ensures Next(|durs|, j % |durs|) == (j + 1) % |durs|
    ensures var ds := Lengths(durs);
      Min(Offset(ds, j + 1), TotalDuration) == Min(Min(Offset(ds, j), TotalDuration) + At(durs, j).value, TotalDuration)
    ensures var ds := Lengths(durs);
      Offset(ds, j) < Offset(ds, j + 1) || Dist(Marks(durs), (j + 1) % |durs|) < Dist(Marks(durs), j % |durs|)
  {
    var p := j % |durs|;
    OffsetStep(Lengths(durs), j);
    NextMod(|durs|, j);
    DistStep(Marks(durs), p);
  }

  /** An iteration that finds a valid VOD hands over to the next one, which decides the outcome. */
  lemma FillStep(vods: seq<Option<Vod>>, durs: seq<Result<nat, ScheduleError>>,
                 category: string, midnight: int, p: nat, t: nat)
    requires p < |vods| == |durs| && AnyMarked(Marks(durs)) && t < TotalDuration
    requires forall k :: 0 <= k < |durs| && durs[k].Ok? ==> vods[k].Some?
    requires durs[p].Ok?
    ensures var r := Fill(vods, durs, category, midnight, p, t);
      var r' := Fill(vods, durs, category, midnight, Next(|vods|, p), Min(t + durs[p].value, TotalDuration));
      (r.Err? <==> r'.Err?) && (r.Err? ==> r.error == r'.error)
  {
  }

  /**
   * `createSchedule` fails exactly when an iteration it reaches finds an
   * invalid VOD, and then with that iteration's error: the first failing
   * element reached, whatever comes after it in the catalog. Iteration `k`
   * finds `At(Durations(vods), k)`, the outcome for `vods[k % vods.length]`.
   */
  lemma CreateScheduleFirstError(vods: seq<Option<Vod>>, category: string, midnight: int)
    requires |vods| > 0 && Halts(vods)
    ensures var r, durs := CreateSchedule(VodArray(vods), category, midnight), Durations(vods);
      && (r.Err? ==> exists k :: Reaches(durs, k) && At(durs, k) == Err(r.error))
      && (r.Ok? <==> forall k :: Reaches(durs, k) ==> At(durs, k).Ok?)
  {
    var durs := Durations(vods);
    HaltsMarked(vods);
    FromStart(durs);
    FillErrorReached(vods, durs, category, midnight, 0);
    FillOkReached(vods, durs, category, midnight, 0);
    CreateScheduleIsFill(vods, category, midnight);
  }

  lemma FromStart(durs: seq<Result<nat, ScheduleError>>)
    requires |durs| > 0
    ensures 0 % |durs| == 0 && Min(Offset(Lengths(durs), 0), TotalDuration) == 0
  {
  }

  /** On a non-empty array, `createSchedule` is the loop from index 0 with the cursor at 0. */
  lemma CreateScheduleIsFill(vods: seq<Option<Vod>>, category: string, midnight: int)
    requires |vods| > 0 && Halts(vods)
    ensures AnyMarked(Marks(Durations(vods)))
    ensures forall k :: 0 <= k < |vods| && Durations(vods)[k].Ok? ==> vods[k].Some?
    ensures CreateSchedule(VodArray(vods), category, midnight) == Fill(vods, Durations(vods), category, midnight, 0, 0)
  {
    HaltsMarked(vods);
  }
}
