/**
 * index.js `adjustScheduleItems`: live schedule segments are sorted by start
 * time (stably), then swept once against the last segment kept: a segment
 * that starts before that one ends is moved to start at its end, and a
 * segment whose (start, end) then equals the last kept one's is dropped.
 * Timestamps are integers here; the source compares ISO strings.
 */
module Reconcile {

  /** A schedule segment: its time span, and the fields the sweep carries along unchanged. */
  datatype Segment = Segment(start: int, end: int, id: string, title: string)

  predicate SortedByStart(s: seq<Segment>) {
    forall i, j :: 0 <= i < j < |s| ==> s[i].start <= s[j].start
  }

  /** The segments of `s` that start at `t`, in their order in `s`. */
  function WithStart(s: seq<Segment>, t: int): seq<Segment>
    decreases |s|
  {
    if s == [] then [] else (if s[0].start == t then [s[0]] else []) + WithStart(s[1..], t)
  }

  lemma {:induction false} WithStartAppend(a: seq<Segment>, b: seq<Segment>, t: int)
    ensures WithStart(a + b, t) == WithStart(a, t) + WithStart(b, t)
    decreases |a|
  {
    if a == [] {
      assert a + b == b;
    } else {
      WithStartAppend(a[1..], b, t);
      assert (a + b)[1..] == a[1..] + b;
    }
  }

  lemma {:induction false} WithStartNone(s: seq<Segment>, t: int)
    requires forall i :: 0 <= i < |s| ==> s[i].start != t
    ensures WithStart(s, t) == []
    decreases |s|
  {
    if s != [] {
      WithStartNone(s[1..], t);
    }
  }

  /** Inserts `x` after every segment starting no later than it. */
  function Insert(x: Segment, s: seq<Segment>): (r: seq<Segment>)
    ensures |r| == |s| + 1
    ensures r[0] == x || (s != [] && r[0] == s[0])
    decreases |s|
  {
    if s == [] || x.start < s[0].start then
      [x] + s
    else
      [s[0]] + Insert(x, s[1..])
  }

  lemma {:induction false} InsertSorted(x: Segment, s: seq<Segment>)
    requires SortedByStart(s)
    ensures SortedByStart(Insert(x, s))
    decreases |s|
  {
    if s != [] && x.start >= s[0].start {
      InsertSorted(x, s[1..]);
      var tail := Insert(x, s[1..]);
      assert tail[0] == x || tail[0] == s[1];
      assert Insert(x, s) == [s[0]] + tail;
    }
  }

  /** `x` joins the segments with its start at the back: equal starts keep their order. */
  lemma InsertKeyed(x: Segment, s: seq<Segment>, t: int)
    requires SortedByStart(s)
    ensures WithStart(Insert(x, s), t) == WithStart(s, t) + (if x.start == t then [x] else [])
  {
    if x.start == t {
      InsertKeyedSame(x, s);
    } else {
      InsertKeyedOther(x, s, t);
      assert WithStart(s, t) + [] == WithStart(s, t);
    }
  }

  lemma {:induction false} InsertKeyedSame(x: Segment, s: seq<Segment>)
    requires SortedByStart(s)
    ensures WithStart(Insert(x, s), x.start) == WithStart(s, x.start) + [x]
    decreases |s|
  {
    var t := x.start;
    if s == [] {
    } else if t < s[0].start {
      WithStartNone(s, t);
      assert Insert(x, s)[1..] == s;
    } else {
      var tail := Insert(x, s[1..]);
      assert Insert(x, s)[1..] == tail;
      InsertKeyedSame(x, s[1..]);
    }
  }

  lemma {:induction false} InsertKeyedOther(x: Segment, s: seq<Segment>, t: int)
    requires x.start != t
    ensures WithStart(Insert(x, s), t) == WithStart(s, t)
    decreases |s|
  {
    if s == [] {
    } else if x.start < s[0].start {
      assert Insert(x, s)[1..] == s;
    } else {
      var tail := Insert(x, s[1..]);
      assert Insert(x, s)[1..] == tail;
      InsertKeyedOther(x, s[1..], t);
    }
  }

  lemma {:induction false} InsertPermutes(x: Segment, s: seq<Segment>)
    ensures multiset(Insert(x, s)) == multiset(s) + multiset{x}
    decreases |s|
  {
    if s != [] && x.start >= s[0].start {
      InsertPermutes(x, s[1..]);
      assert s == [s[0]] + s[1..];
    }
  }

  /**
   * Sorting by start time with a numeric comparator: a stable sort
   * (insertion of each segment after the equal-start ones before it).
   */
  function SortByStart(xs: seq<Segment>): (r: seq<Segment>)
    ensures |r| == |xs|
    ensures SortedByStart(r)
    decreases |xs|
  {
    if xs == [] then
      []
    else
      var s := SortByStart(xs[..|xs| - 1]);
      InsertSorted(xs[|xs| - 1], s);
      Insert(xs[|xs| - 1], s)
  }

  /** The sort rearranges the segments: nothing is lost, duplicated or changed. */
  lemma {:induction false} SortPermutes(xs: seq<Segment>)
    ensures multiset(SortByStart(xs)) == multiset(xs)
    decreases |xs|
  {
    if xs != [] {
      var init, x := xs[..|xs| - 1], xs[|xs| - 1];
      SortPermutes(init);
      InsertPermutes(x, SortByStart(init));
      MultisetLast(xs);
    }
  }

  lemma MultisetLast(xs: seq<Segment>)
    requires xs != []
    ensures multiset(xs) == multiset(xs[..|xs| - 1]) + multiset{xs[|xs| - 1]}
  {
    assert xs == xs[..|xs| - 1] + [xs[|xs| - 1]];
  }

  /** The sort is stable: the segments sharing a start come out in the order they went in. */
  lemma {:induction false} SortStable(xs: seq<Segment>)
    ensures forall t :: WithStart(SortByStart(xs), t) == WithStart(xs, t)
    decreases |xs|
  {
    if xs != [] {
      var init, x := xs[..|xs| - 1], xs[|xs| - 1];
      SortStable(init);
      var s := SortByStart(init);
      assert xs == init + [x];
      forall t
        ensures WithStart(SortByStart(xs), t) == WithStart(xs, t)
      {
        InsertKeyed(x, s, t);
        WithStartAppend(init, [x], t);
      }
    }
  }

  /** Two sorted sequences with the same segments at every start time are equal: the stable sort is unique. */
  lemma {:induction false} StableSortUnique(a: seq<Segment>, b: seq<Segment>)
    requires SortedByStart(a) && SortedByStart(b)
    requires forall t :: WithStart(a, t) == WithStart(b, t)
    ensures a == b
    decreases |a| + |b|
  {
    LeadingKey(a);
    LeadingKey(b);
    if a == [] || b == [] {
    } else {
      var ta, tb := a[0].start, b[0].start;
      FirstWithStart(a, b, ta);
      FirstWithStart(b, a, tb);
      assert ta == tb;
      assert WithStart(a, ta)[0] == a[0] && WithStart(b, ta)[0] == b[0];
      DropCommonHead(a, b);
      SortedTail(a);
      SortedTail(b);
      StableSortUnique(a[1..], b[1..]);
      assert a == [a[0]] + a[1..] && b == [b[0]] + b[1..];
    }
  }

  /** Removing an equal first segment from both sides keeps every start's segments equal. */
  lemma DropCommonHead(a: seq<Segment>, b: seq<Segment>)
    requires a != [] && b != [] && a[0] == b[0]
    requires forall t :: WithStart(a, t) == WithStart(b, t)
    ensures forall t :: WithStart(a[1..], t) == WithStart(b[1..], t)
  {
    forall t
      ensures WithStart(a[1..], t) == WithStart(b[1..], t)
    {
      var p: seq<Segment> := if t == a[0].start then [a[0]] else [];
      assert WithStart(a, t) == p + WithStart(a[1..], t);
      assert WithStart(b, t) == p + WithStart(b[1..], t);
      assert WithStart(a[1..], t) == WithStart(a, t)[|p|..];
      assert WithStart(b[1..], t) == WithStart(b, t)[|p|..];
    }
  }

  lemma SortedTail(s: seq<Segment>)
    requires s != [] && SortedByStart(s)
    ensures SortedByStart(s[1..])
  {
  }

  lemma LeadingKey(s: seq<Segment>)
    ensures s != [] ==> WithStart(s, s[0].start) != []
  {
  }

  /** The first start of a sorted `b` is no later than any start that `a` shares with it. */
  lemma FirstWithStart(a: seq<Segment>, b: seq<Segment>, t: int)
    requires a != [] && a[0].start == t && SortedByStart(b)
    requires WithStart(a, t) == WithStart(b, t)
    ensures b != [] && b[0].start <= t
  {
    assert WithStart(a, t) != [];
    if b == [] || b[0].start > t {
      WithStartNone(b, t);
    }
  }

  /** Sorting input that is already in start order changes nothing. */
  lemma SortSortedUnchanged(xs: seq<Segment>)
    requires SortedByStart(xs)
    ensures SortByStart(xs) == xs
  {
    SortStable(xs);
    StableSortUnique(SortByStart(xs), xs);
  }

  /** A segment starting before the last kept one ends is moved to start at that end. */
  function Clamp(item: Segment, last: Segment): Segment
  {
    if item.start < last.end then item.(start := last.end) else item
  }

  /** Clamping only ever moves the start, forward, and exactly to the last end when it moves it. */
  lemma ClampStartOnly(item: Segment, last: Segment)
    ensures var c := Clamp(item, last);
      && c == item.(start := c.start)
      && c.start >= item.start && c.start >= last.end
      && (item.start < last.end ==> c.start == last.end)
      && (item.start >= last.end ==> c == item)
  {
  }

  /** Both timestamps equal: the only case in which a segment is dropped. */
  predicate SameSpan(a: Segment, b: Segment) {
    a.start == b.start && a.end == b.end
  }

  /**
   * `r` is drawn from `src` in order, each segment clamped against the one
   * kept before it (`last` for the first); a segment is left out only when
   * its clamped span equals that of the one kept before it.
   */
  predicate ClampedSubsequence(r: seq<Segment>, last: Segment, src: seq<Segment>)
    decreases |src|
  {
    if src == [] then r == []
    else
      (r != [] && r[0] == Clamp(src[0], last) && ClampedSubsequence(r[1..], r[0], src[1..]))
      || (SameSpan(Clamp(src[0], last), last) && ClampedSubsequence(r, last, src[1..]))
  }

  lemma {:induction false} ClampedSubsequenceLength(r: seq<Segment>, last: Segment, src: seq<Segment>)
    requires ClampedSubsequence(r, last, src)
    ensures |r| <= |src|
    decreases |src|
  {
    if src != [] {
      if r != [] && r[0] == Clamp(src[0], last) && ClampedSubsequence(r[1..], r[0], src[1..]) {
        ClampedSubsequenceLength(r[1..], r[0], src[1..]);
      } else {
        ClampedSubsequenceLength(r, last, src[1..]);
      }
    }
  }

  /**
   * The sweep is the only clamped subsequence that keeps no segment with the
   * span of the one kept before it.
   */
  lemma {:induction false} SweepUnique(r: seq<Segment>, last: Segment, src: seq<Segment>)
    requires ClampedSubsequence(r, last, src)
    requires Separated([last] + r)
    ensures r == Sweep(last, src)
    decreases |src|
  {
    if src != [] {
      var c := Clamp(src[0], last);
      var all := [last] + r;
      if r != [] {
        assert all[0] == last && all[1] == r[0];
      }
      if SameSpan(c, last) {
        SweepUnique(r, last, src[1..]);
      } else {
        SeparatedTail(last, r);
        SweepUnique(r[1..], c, src[1..]);
        assert r == [r[0]] + r[1..];
      }
    }
  }

  /** Dropping the first segment keeps a sequence separated. */
  lemma SeparatedTail(last: Segment, r: seq<Segment>)
    requires r != [] && Separated([last] + r)
    ensures Separated([r[0]] + r[1..])
  {
    var all := [last] + r;
    assert [r[0]] + r[1..] == r;
    forall i | 0 <= i < |r| - 1
      ensures r[i].end <= r[i + 1].start && !SameSpan(r[i], r[i + 1])
    {
      assert all[i + 1] == r[i] && all[i + 2] == r[i + 1];
    }
  }

  /** Each segment ends no later than the next one starts, and no two neighbours have the same span. */
  ghost predicate Separated(s: seq<Segment>) {
    forall i, j :: 0 <= i && j == i + 1 && j < |s| ==> s[i].end <= s[j].start && !SameSpan(s[i], s[j])
  }

  /** The loop body after the first segment, with `last` the last segment kept. */
  function Sweep(last: Segment, rest: seq<Segment>): (r: seq<Segment>)
    ensures r != [] ==> r[0].start >= last.end && !SameSpan(r[0], last)
    ensures Separated(r)
    decreases |rest|
  {
    if rest == [] then
      []
    else
      var item := Clamp(rest[0], last);
      if SameSpan(item, last) then
        Sweep(last, rest[1..])
      else
        var tail := Sweep(item, rest[1..]);
        SeparatedCons(item, tail);
        [item] + tail
  }

  /** `adjustScheduleItems`: sort, keep the first segment as it is, sweep the others. */
  function AdjustScheduleItems(scheduleItems: seq<Segment>): (r: seq<Segment>)
    ensures |r| <= |scheduleItems|
    ensures r == [] <==> scheduleItems == []
    ensures r != [] ==> r[0] == SortByStart(scheduleItems)[0]
    ensures Separated(r)
  {
    var sortedItems := SortByStart(scheduleItems);
    if sortedItems == [] then
      []
    else
      var rest := Sweep(sortedItems[0], sortedItems[1..]);
      SweepClamped(sortedItems[0], sortedItems[1..]);
      ClampedSubsequenceLength(rest, sortedItems[0], sortedItems[1..]);
      SeparatedCons(sortedItems[0], rest);
      [sortedItems[0]] + rest
  }

  /** After the first, the kept segments are drawn in order from the sorted ones, each clamped against its predecessor. */
  lemma AdjustClamped(scheduleItems: seq<Segment>)
    ensures var r := AdjustScheduleItems(scheduleItems);
      r != [] ==> ClampedSubsequence(r[1..], r[0], SortByStart(scheduleItems)[1..])
  {
    var sortedItems := SortByStart(scheduleItems);
    if sortedItems != [] {
      SweepClamped(sortedItems[0], sortedItems[1..]);
    }
  }

  /**
   * The result is characterised without the loop: the first sorted segment,
   * then a clamped subsequence of the others, with no two neighbours
   * overlapping or sharing a span; exactly one sequence meets that.
   */
  lemma AdjustCharacterized(scheduleItems: seq<Segment>, r: seq<Segment>)
    ensures r == AdjustScheduleItems(scheduleItems) <==>
      var s := SortByStart(scheduleItems);
      if s == [] then r == []
      else r != [] && r[0] == s[0] && ClampedSubsequence(r[1..], s[0], s[1..]) && Separated(r)
  {
    var s := SortByStart(scheduleItems);
    AdjustClamped(scheduleItems);
    if s != [] && r != [] && r[0] == s[0] && ClampedSubsequence(r[1..], s[0], s[1..]) && Separated(r) {
      assert [s[0]] + r[1..] == r;
      SweepUnique(r[1..], s[0], s[1..]);
    }
  }

  /** Every segment the sweep returns is the clamp of a segment of `rest`, taken in order. */
  lemma {:induction false} SweepClamped(last: Segment, rest: seq<Segment>)
    ensures ClampedSubsequence(Sweep(last, rest), last, rest)
    decreases |rest|
  {
    if rest != [] {
      var item := Clamp(rest[0], last);
      if SameSpan(item, last) {
        SweepClamped(last, rest[1..]);
      } else {
        SweepClamped(item, rest[1..]);
        var r := Sweep(last, rest);
        assert r[0] == item && r[1..] == Sweep(item, rest[1..]);
      }
    }
  }

  lemma SeparatedCons(x: Segment, rest: seq<Segment>)
    requires rest != [] ==> rest[0].start >= x.end && !SameSpan(rest[0], x)
    requires Separated(rest)
    ensures Separated([x] + rest) && ([x] + rest)[1..] == rest
  {
    var all := [x] + rest;
    assert all[1..] == rest;
    forall i | 0 <= i < |all| - 1
      ensures all[i].end <= all[i + 1].start && !SameSpan(all[i], all[i + 1])
    {
      if i > 0 {
        assert all[i] == rest[i - 1] && all[i + 1] == rest[i];
      }
    }
  }

  /** A segment already clear of the last one kept, and not a copy of its span, is kept unchanged. */
  lemma {:induction false} SweepSeparated(last: Segment, rest: seq<Segment>)
    requires Separated([last] + rest)
    ensures Sweep(last, rest) == rest
    decreases |rest|
  {
    if rest != [] {
      var all := [last] + rest;
      assert all[0] == last && all[1] == rest[0];
      assert Clamp(rest[0], last) == rest[0];
      assert Separated([rest[0]] + rest[1..]) by {
        forall i | 0 <= i < |rest| - 1
          ensures rest[i].end <= rest[i + 1].start && !SameSpan(rest[i], rest[i + 1])
        {
          assert all[i + 1] == rest[i] && all[i + 2] == rest[i + 1];
        }
        assert [rest[0]] + rest[1..] == rest;
      }
      SweepSeparated(rest[0], rest[1..]);
    }
  }

  /** The schedule comes back as sorted exactly when the sorted segments are already separated. */
  lemma AdjustUnchangedIff(scheduleItems: seq<Segment>)
    ensures AdjustScheduleItems(scheduleItems) == SortByStart(scheduleItems) <==> Separated(SortByStart(scheduleItems))
  {
    var sortedItems := SortByStart(scheduleItems);
    if sortedItems != [] && Separated(sortedItems) {
      assert [sortedItems[0]] + sortedItems[1..] == sortedItems;
      SweepSeparated(sortedItems[0], sortedItems[1..]);
    }
  }

  /** Segments given in start order and already separated come back as they are. */
  lemma AdjustSeparatedUnchanged(scheduleItems: seq<Segment>)
    requires SortedByStart(scheduleItems) && Separated(scheduleItems)
    ensures AdjustScheduleItems(scheduleItems) == scheduleItems
  {
    SortSortedUnchanged(scheduleItems);
    AdjustUnchangedIff(scheduleItems);
  }

  /** No segment shares its end with another: a segment is dropped only when its end equals the last kept one's. */
  predicate DistinctEnds(s: seq<Segment>) {
    forall i, j :: 0 <= i < j < |s| ==> s[i].end != s[j].end
  }

  lemma {:induction false} SweepKeepsDistinctEnds(last: Segment, rest: seq<Segment>)
    requires DistinctEnds([last] + rest)
    ensures |Sweep(last, rest)| == |rest|
    decreases |rest|
  {
    if rest != [] {
      var all := [last] + rest;
      assert all[0] == last && all[1] == rest[0];
      var item := Clamp(rest[0], last);
      assert !SameSpan(item, last);
      assert DistinctEnds([item] + rest[1..]) by {
        forall i, j | 0 <= i < j < |rest|
          ensures ([item] + rest[1..])[i].end != ([item] + rest[1..])[j].end
        {
          assert all[i + 1].end == ([item] + rest[1..])[i].end;
          assert all[j + 1].end == ([item] + rest[1..])[j].end;
        }
      }
      SweepKeepsDistinctEnds(item, rest[1..]);
    }
  }

  /** When the sorted segments all end at different times, every one of them is kept. */
  lemma AdjustKeepsDistinctEnds(scheduleItems: seq<Segment>)
    requires DistinctEnds(SortByStart(scheduleItems))
    ensures |AdjustScheduleItems(scheduleItems)| == |scheduleItems|
  {
    var sortedItems := SortByStart(scheduleItems);
    if sortedItems != [] {
      assert [sortedItems[0]] + sortedItems[1..] == sortedItems;
      SweepKeepsDistinctEnds(sortedItems[0], sortedItems[1..]);
    }
  }

  /** Two copies of a segment with positive length: the second is kept, squeezed to zero length at the end. */
  lemma DuplicateBecomesEmpty(a: Segment)
    requires a.start < a.end
    ensures AdjustScheduleItems([a, a]) == [a, a.(start := a.end)]
  {
    SortSortedUnchanged([a, a]);
    var b := a.(start := a.end);
    assert Sweep(a, [a]) == [b] + Sweep(b, []);
  }

  /** One step of the sweep that keeps its segment. */
  lemma SweepKeep(last: Segment, item: Segment, rest: seq<Segment>)
    requires !SameSpan(Clamp(item, last), last)
    ensures Sweep(last, [item] + rest) == [Clamp(item, last)] + Sweep(Clamp(item, last), rest)
  {
    assert ([item] + rest)[1..] == rest;
  }

  /** Only the sorted order of the input matters to the result. */
  lemma AdjustAfterSort(scheduleItems: seq<Segment>)
    ensures AdjustScheduleItems(scheduleItems) == AdjustScheduleItems(SortByStart(scheduleItems))
  {
    SortSortedUnchanged(SortByStart(scheduleItems));
  }

  /** On segments already in start order, the first is kept and the sweep starts from it. */
  lemma AdjustOnSorted(s: seq<Segment>)
    requires s != [] && SortedByStart(s)
    ensures AdjustScheduleItems(s) == [s[0]] + Sweep(s[0], s[1..])
  {
    SortSortedUnchanged(s);
  }

  /** Two segments after `a`, each kept. */
  lemma SweepTwo(a: Segment, b: Segment, c: Segment)
    requires !SameSpan(Clamp(b, a), a) && !SameSpan(Clamp(c, Clamp(b, a)), Clamp(b, a))
    ensures Sweep(a, [b, c]) == [Clamp(b, a), Clamp(c, Clamp(b, a))]
  {
    assert [b, c] == [b] + [c];
    SweepKeep(a, b, [c]);
    SweepKeep(Clamp(b, a), c, []);
    assert [c] + [] == [c];
  }

  /** Three segments in start order, each kept. */
  lemma AdjustThree(s: seq<Segment>)
    requires |s| == 3 && s[0].start <= s[1].start <= s[2].start
    requires !SameSpan(Clamp(s[1], s[0]), s[0])
    requires !SameSpan(Clamp(s[2], Clamp(s[1], s[0])), Clamp(s[1], s[0]))
    ensures AdjustScheduleItems(s) == [s[0], Clamp(s[1], s[0]), Clamp(s[2], Clamp(s[1], s[0]))]
  {
    AdjustOnSorted(s);
    assert s[1..] == [s[1], s[2]];
    SweepTwo(s[0], s[1], s[2]);
  }

  /** The sort takes the last segment off and inserts it into the sorted rest. */
  lemma SortByStartLast(xs: seq<Segment>)
    requires xs != []
    ensures SortByStart(xs) == Insert(xs[|xs| - 1], SortByStart(xs[..|xs| - 1]))
  {
  }

  /** Sorting moves a segment that starts before the two others to the front. */
  lemma SortLastFirst(xs: seq<Segment>)
    requires |xs| == 3 && xs[2].start < xs[0].start <= xs[1].start
    ensures SortByStart(xs) == [xs[2], xs[0], xs[1]]
  {
    var init := xs[..2];
    SortByStartLast(xs);
    SortSortedUnchanged(init);
    assert Insert(xs[2], init) == [xs[2]] + init;
    assert [xs[2]] + init == [xs[2], xs[0], xs[1]];
  }

  /** Overlapping neighbours are pushed back one after another, whatever order they arrive in. */
  lemma OverlapExample()
    ensures var x, y, z := Segment(10, 20, "x", ""), Segment(15, 25, "y", ""), Segment(20, 30, "z", "");
      AdjustScheduleItems([y, z, x]) == [x, y.(start := 20), z.(start := 25)]
  {
    var x, y, z := Segment(10, 20, "x", ""), Segment(15, 25, "y", ""), Segment(20, 30, "z", "");
    SortLastFirst([y, z, x]);
    AdjustThree([x, y, z]);
    AdjustAfterSort([y, z, x]);
  }

  /**
   * Only neighbours are separated: a long segment followed by two short ones
   * leaves the third overlapping the first, and the second ending before it starts.
   */
  lemma NonAdjacentOverlapExample()
    ensures var a, b, c := Segment(0, 10, "a", ""), Segment(2, 5, "b", ""), Segment(3, 8, "c", "");
      var r := AdjustScheduleItems([a, b, c]);
      && r == [a, b.(start := 10), c.(start := 5)]
      && r[2].start < r[0].end && r[1].end < r[1].start
  {
    var a, b, c := Segment(0, 10, "a", ""), Segment(2, 5, "b", ""), Segment(3, 8, "c", "");
    AdjustThree([a, b, c]);
  }
}
