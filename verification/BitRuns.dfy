/**
 Page maps as sequences of booleans (true is "in use"), the runs of clear bits in them,
 and how marking or clearing a whole range moves the two counters that the page
 allocator derives from its bitmap.
 */
module BitRuns {
  import opened Prelude

  predicate FreeRun(b: seq<bool>, s: nat, n: nat) {
    s + n <= |b| && forall i | s <= i < s + n :: !b[i]
  }

  predicate UsedRun(b: seq<bool>, s: nat, n: nat) {
    s + n <= |b| && forall i | s <= i < s + n :: b[i]
  }

  /** The map with the n bits from s on set to v. */
  function Fill(b: seq<bool>, s: nat, n: nat, v: bool): (r: seq<bool>)
    requires s + n <= |b|
    ensures |r| == |b|
  {
    b[..s] + seq(n, i => v) + b[s + n..]
  }

  lemma FillAt(b: seq<bool>, s: nat, n: nat, v: bool)
    requires s + n <= |b|
    ensures forall i | 0 <= i < |b| :: Fill(b, s, n, v)[i] == if s <= i < s + n then v else b[i]
  {
  }

  /** Lowest-index run of n clear bits that starts at or after `from`. */
  function FirstFit(b: seq<bool>, n: nat, from: nat): (r: Option<nat>)
    requires n > 0
    ensures r.Some? ==> from <= r.value && FreeRun(b, r.value, n)
    ensures r.Some? ==> forall t | from <= t < r.value :: !FreeRun(b, t, n)
    ensures r.None? ==> forall t | from <= t :: !FreeRun(b, t, n)
    decreases |b| - from
  {
    if from + n > |b| then None
    else if FreeRun(b, from, n) then Some(from)
    else FirstFit(b, n, from + 1)
  }

  /** A first fit never starts in the middle of a run of clear bits. */
  lemma FirstFitIsRunPrefix(b: seq<bool>, n: nat)
    requires n > 0 && FirstFit(b, n, 0).Some?
    ensures var s := FirstFit(b, n, 0).value; s == 0 || b[s - 1]
  {
    var s := FirstFit(b, n, 0).value;
    if s > 0 && !b[s - 1] {
      assert FreeRun(b, s - 1, n);
    }
  }

  // ----- the number of clear bits

  /** The number of clear bits among the first i. */
  function ClearCount(b: seq<bool>, i: nat): (c: nat)
    requires i <= |b|
    ensures c <= i
  {
    if i == 0 then 0 else ClearCount(b, i - 1) + if b[i - 1] then 0 else 1
  }

  /** Filling a range in which every bit was the opposite moves the count by the range's length. */
  lemma {:induction false} FillClearCount(b: seq<bool>, s: nat, n: nat, v: bool, i: nat)
    requires s + n <= |b| && i <= |b|
    requires forall j | s <= j < s + n :: b[j] != v
    ensures var k := if i <= s then 0 else if i <= s + n then i - s else n;
            ClearCount(Fill(b, s, n, v), i) == ClearCount(b, i) + if v then -k else k
  {
    FillAt(b, s, n, v);
    if i == 0 {
    } else {
      FillClearCount(b, s, n, v, i - 1);
    }
  }

  /** Filling with `false` adds exactly the bits that were set; it adds n only if all of them were. */
  lemma {:induction false} ClearingCount(b: seq<bool>, s: nat, n: nat, i: nat)
    requires s + n <= |b| && i <= |b|
    ensures var k := if i <= s then 0 else if i <= s + n then i - s else n;
            var gain := ClearCount(Fill(b, s, n, false), i) - ClearCount(b, i);
            gain <= k && (gain == k <==> UsedRun(b, s, k))
  {
    FillAt(b, s, n, false);
    if i == 0 {
    } else {
      ClearingCount(b, s, n, i - 1);
    }
  }

  // ----- maximal runs of clear bits

  /** [s, e) is a non-empty run of clear bits that cannot be extended on either side. */
  predicate MaximalRun(b: seq<bool>, s: nat, e: nat) {
    && s < e <= |b|
    && FreeRun(b, s, e - s)
    && (s == 0 || b[s - 1])
    && (e == |b| || b[e])
  }

  ghost function MaximalRuns(b: seq<bool>): set<(nat, nat)> {
    set s: nat, e: nat | s < |b| && e <= |b| && MaximalRun(b, s, e) :: (s, e)
  }

  predicate IsRunStart(b: seq<bool>, i: nat) {
    i < |b| && !b[i] && (i == 0 || b[i - 1])
  }

  /** The number of runs of clear bits that start among the first i positions. */
  function RunStarts(b: seq<bool>, i: nat): nat
    requires i <= |b|
  {
    if i == 0 then 0 else RunStarts(b, i - 1) + if IsRunStart(b, i - 1) then 1 else 0
  }

  function RunEnd(b: seq<bool>, i: nat): (e: nat)
    requires i <= |b|
    ensures i <= e <= |b| && FreeRun(b, i, e - i) && (e == |b| || b[e])
    decreases |b| - i
  {
    if i == |b| || b[i] then i else RunEnd(b, i + 1)
  }

  ghost function RunsBefore(b: seq<bool>, i: nat): set<(nat, nat)> {
    set r | r in MaximalRuns(b) && r.0 < i
  }

  lemma RunsBeforeStep(b: seq<bool>, i: nat)
    requires i < |b|
    ensures RunsBefore(b, i + 1) == RunsBefore(b, i) + if IsRunStart(b, i) then {(i, RunEnd(b, i))} else {}
  {
  }

  lemma {:induction false} RunsBeforeSize(b: seq<bool>, i: nat)
    requires i <= |b|
    ensures |RunsBefore(b, i)| == RunStarts(b, i)
  {
    if i == 0 {
      assert RunsBefore(b, 0) == {};
    } else {
      RunsBeforeSize(b, i - 1);
      RunsBeforeStep(b, i - 1);
    }
  }

  /** Counting run starts counts the maximal runs of clear bits. */
  lemma RunStartsCountMaximalRuns(b: seq<bool>)
    ensures RunStarts(b, |b|) == |MaximalRuns(b)|
  {
    RunsBeforeSize(b, |b|);
    assert RunsBefore(b, |b|) == MaximalRuns(b);
  }

  /** The number of clear bits right next to the range [s, s + n). */
  function ClearNeighbours(b: seq<bool>, s: nat, n: nat): nat
    requires s + n <= |b|
  {
    (if s > 0 && !b[s - 1] then 1 else 0) + (if s + n < |b| && !b[s + n] then 1 else 0)
  }

  lemma {:induction false} FillRunStarts(b: seq<bool>, s: nat, n: nat, i: nat)
    requires n > 0 && FreeRun(b, s, n) && i <= |b|
    ensures var left := if s > 0 && !b[s - 1] then 1 else 0;
            var right := if s + n < |b| && !b[s + n] then 1 else 0;
            RunStarts(Fill(b, s, n, true), i) ==
            RunStarts(b, i) + (if i <= s then 0 else left - 1) + (if i <= s + n then 0 else right)
  {
    FillAt(b, s, n, true);
    if i == 0 {
    } else {
      FillRunStarts(b, s, n, i - 1);
    }
  }

  /** Using up a range of clear bits turns one run into as many runs as it has clear neighbours. */
  lemma FillingMovesRunCount(b: seq<bool>, s: nat, n: nat)
    requires n > 0 && FreeRun(b, s, n)
    ensures |MaximalRuns(Fill(b, s, n, true))| == |MaximalRuns(b)| - 1 + ClearNeighbours(b, s, n)
  {
    FillRunStarts(b, s, n, |b|);
    RunStartsCountMaximalRuns(b);
    RunStartsCountMaximalRuns(Fill(b, s, n, true));
  }

  /** Filling a range one way and then back the other way restores a uniform range. */
  lemma FillBack(b: seq<bool>, s: nat, n: nat, v: bool)
    requires s + n <= |b| && forall i | s <= i < s + n :: b[i] != v
    ensures Fill(Fill(b, s, n, v), s, n, !v) == b
  {
  }

  /** Releasing a used range merges the runs on both sides of it into one. */
  lemma ClearingMovesRunCount(b: seq<bool>, s: nat, n: nat)
    requires n > 0 && UsedRun(b, s, n)
    ensures |MaximalRuns(Fill(b, s, n, false))| == |MaximalRuns(b)| + 1 - ClearNeighbours(b, s, n)
  {
    var c := Fill(b, s, n, false);
    FillAt(b, s, n, false);
    FillBack(b, s, n, false);
    FillingMovesRunCount(c, s, n);
  }
}
