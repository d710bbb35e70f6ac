/**
 * Walking a non-empty array round and round, as `vods[i % vods.length]`
 * does, and the measure that shows such a walk reaches a marked element.
 */
module Cyclic {

  lemma MulAtLeast(d: int, n: int)
    requires d >= 1 && n > 0
    ensures d * n >= n
  {
  }

  lemma DivModUnique(a: int, n: int, q: int, r: int)
    requires n > 0 && 0 <= r < n && a == q * n + r
    ensures a % n == r
  {
    var q', r' := a / n, a % n;
    assert a == q' * n + r';
    var d := q - q';
    assert d * n == q * n - q' * n;
    assert d * n == r' - r;
    if d >= 1 {
      MulAtLeast(d, n);
    } else if d <= -1 {
      MulAtLeast(-d, n);
    }
  }

  lemma ModAddN(x: nat, n: nat)
    requires n > 0
    ensures (x + n) % n == x % n
  {
    DivModUnique(x + n, n, x / n + 1, x % n);
  }

  /** The index after `p`: how `i % n` moves when the loop counter `i` goes up by one. */
  function Next(n: nat, p: nat): (q: nat)
    requires p < n
    ensures q < n
  {
    if p + 1 == n then 0 else p + 1
  }

  /** The index `k` iterations after index `p`. */
  function Cycle(n: nat, p: nat, k: nat): (q: nat)
    requires p < n
    ensures q < n
    decreases k
  {
    if k == 0 then p else Cycle(n, Next(n, p), k - 1)
  }

  /** Stepping with `Next` is the source's `i % vods.length`. */
  lemma {:induction false} CycleIsMod(n: nat, p: nat, k: nat)
    requires p < n
    ensures Cycle(n, p, k) == (p + k) % n
    decreases k
  {
    if k == 0 {
      DivModUnique(p, n, 0, p);
    } else {
      CycleIsMod(n, Next(n, p), k - 1);
      if p + 1 == n {
        ModAddN(k - 1, n);
        assert p + k == (k - 1) + n;
      } else {
        assert Next(n, p) + (k - 1) == p + k;
      }
    }
  }

  /** From index 0, iteration `k` reads index `k % n`. */
  lemma CycleFromZero(n: nat, k: nat)
    requires 0 < n
    ensures Cycle(n, 0, k) == k % n
  {
    CycleIsMod(n, 0, k);
    assert 0 + k == k;
  }

  /** Moving on from index `j % n` reads index `(j + 1) % n`. */
  lemma NextMod(n: nat, j: nat)
    requires n > 0
    ensures Next(n, j % n) == (j + 1) % n
  {
    if j % n + 1 < n {
      DivModUnique(j + 1, n, j / n, j % n + 1);
    } else {
      DivModUnique(j + 1, n, j / n + 1, 0);
    }
  }

  /** Index `d` steps after `p`, wrapping at most once. */
  function Pos(n: nat, p: nat, d: nat): (q: nat)
    requires p < n && d <= n
  {
    if p + d < n then p + d else p + d - n
  }

  /** Some index is marked. */
  predicate AnyMarked(marked: seq<bool>) {
    exists k :: 0 <= k < |marked| && marked[k]
  }

  /** Steps from index `p`, skipping the first `d`, to the next marked index; `|marked|` when there is none. */
  function DistFrom(marked: seq<bool>, p: nat, d: nat): (r: nat)
    requires p < |marked| && d <= |marked|
    ensures d <= r <= |marked|
    ensures r < |marked| ==> Pos(|marked|, p, r) < |marked| && marked[Pos(|marked|, p, r)]
    decreases |marked| - d
  {
    if d == |marked| || marked[Pos(|marked|, p, d)] then d else DistFrom(marked, p, d + 1)
  }

  lemma {:induction false} DistFromLeast(marked: seq<bool>, p: nat, d: nat, e: nat)
    requires p < |marked| && d <= e < |marked|
    requires marked[Pos(|marked|, p, e)]
    ensures DistFrom(marked, p, d) <= e
    decreases e - d
  {
    if d < e && !marked[Pos(|marked|, p, d)] {
      DistFromLeast(marked, p, d + 1, e);
    }
  }

  /** Steps from index `p` to the next marked index. */
  function Dist(marked: seq<bool>, p: nat): nat
    requires p < |marked|
  {
    DistFrom(marked, p, 0)
  }

  lemma DistFound(marked: seq<bool>, p: nat)
    requires p < |marked| && AnyMarked(marked)
    ensures Dist(marked, p) < |marked|
  {
    var n := |marked|;
    var k :| 0 <= k < n && marked[k];
    var e: nat := if k >= p then k - p else k - p + n;
    assert Pos(n, p, e) == k;
    DistFromLeast(marked, p, 0, e);
  }

  /** Passing an unmarked index brings the next marked one a step closer. */
  lemma DistStep(marked: seq<bool>, p: nat)
    requires p < |marked| && AnyMarked(marked)
    ensures !marked[p] ==> Dist(marked, Next(|marked|, p)) < Dist(marked, p)
  {
    var n := |marked|;
    if !marked[p] {
      DistFound(marked, p);
      var d := Dist(marked, p);
      assert Pos(n, p, 0) == p;
      assert d != 0;
      assert Pos(n, Next(n, p), d - 1) == Pos(n, p, d);
      DistFromLeast(marked, Next(n, p), 0, d - 1);
    }
  }
}
