/** What a sweep counts, defined independently of how it scans: the placements of a line's runs,
    and the proof that the guarded sweep returns their number saturated at INT_MAX. */
module Placements {
  import opened Limits
  import opened ClueSetup
  import opened LineSweep

  /** The windows a sweep is given satisfy what the solver keeps true of them: each is non-empty,
      and a run anchored at the end of its window still leaves the next run's window reachable.
      The static windows of `finish_init_clue_sets` (src/nonogram.c:433-474) are chained this
      way, and a sweep only ever narrows a window to anchors that led to a placement. */
  predicate Chained(l: Line)
    requires Wf(l)
  {
    (forall k :: 0 <= k < |l.runs| ==> l.windows[k].lo <= l.windows[k].hi) &&
    (forall k :: 0 <= k < |l.runs| - 1 ==> ChainedAt(l, k))
  }

  /** Run `k` anchored at the end of its window ends no later than the end of the next run's
      window. */
  predicate ChainedAt(l: Line, k: nat)
    requires Wf(l) && k < |l.runs| - 1
  {
    l.windows[k].hi + GapOf(l.runs[k]) + l.runs[k].len <= l.windows[k + 1].hi
  }

  /** The number of placements of runs `k..` from `pos`: past the last run, one if the rest of
      the line can stay empty; otherwise the sum over anchors of run `k` in its window, from
      `pos` on, behind a gap that can stay empty. */
  function Count(l: Line, k: nat, pos: nat): nat
    requires Wf(l) && k <= |l.runs|
    decreases |l.runs| - k, 2, 0
  {
    if k == |l.runs| then (if AllBlank(l, pos, |l.cells|) then 1 else 0)
    else GapSum(l, k, pos, Max(pos, l.windows[k].lo))
  }

  /** The placements of runs `k..` whose run `k` is anchored at `i` or later inside its window,
      with the gap from `g` to the anchor able to stay empty. */
  function GapSum(l: Line, k: nat, g: nat, i: nat): nat
    requires Wf(l) && k < |l.runs|
    decreases |l.runs| - k, 1, if i <= l.windows[k].hi then l.windows[k].hi + 1 - i else 0
  {
    if i > l.windows[k].hi then 0
    else (if AllBlank(l, g, i) then AnchorCount(l, k, i) else 0) + GapSum(l, k, g, i + 1)
  }

  /** The placements of runs `k..` with run `k` anchored at `a`: its mandatory empty cell can
      stay empty, its cells can take its colour, and the remaining runs fit after it. */
  function AnchorCount(l: Line, k: nat, a: nat): nat
    requires Wf(l) && k < |l.runs|
    decreases |l.runs| - k, 0, 0
  {
    var run := l.runs[k];
    var q := a + GapOf(run);
    if (run.emptyBefore ==> Blankable(l, a)) && RunFits(l, q, run.len, run.color)
    then Count(l, k + 1, q + run.len)
    else 0
  }

  /** Saturating twice is saturating once. */
  lemma SaturateTwice(acc: int, x: nat, g: nat)
    requires 0 <= acc <= INT_MAX
    ensures Min(Min(acc + Min(x, INT_MAX), INT_MAX) + g, INT_MAX) == Min(acc + x + g, INT_MAX)
  {
  }

  /** A gap that cannot stay empty up to `i` blocks every later anchor. */
  lemma {:induction false} GapSumBlocked(l: Line, k: nat, g: nat, i: nat, j: int)
    requires Wf(l) && k < |l.runs|
    requires g <= j < i && !Blankable(l, j)
    ensures GapSum(l, k, g, i) == 0
    decreases if i <= l.windows[k].hi then l.windows[k].hi + 1 - i else 0
  {
    if i <= l.windows[k].hi {
      assert !AllBlank(l, g, i);
      GapSumBlocked(l, k, g, i + 1, j);
    }
  }

  /** Anchors that contribute nothing can be stepped over. */
  lemma {:induction false} GapSumSkip(l: Line, k: nat, g: nat, i: nat, j: nat)
    requires Wf(l) && k < |l.runs|
    requires i <= j <= l.windows[k].hi + 1
    requires forall t :: i <= t < j && AllBlank(l, g, t) ==> AnchorCount(l, k, t) == 0
    ensures GapSum(l, k, g, i) == GapSum(l, k, g, j)
    decreases j - i
  {
    if i < j {
      GapSumSkip(l, k, g, i + 1, j);
    }
  }

  /** A gap that can stay empty from `g` to `g2` may start at either. */
  lemma {:induction false} GapSumRebase(l: Line, k: nat, g: nat, g2: nat, i: nat)
    requires Wf(l) && k < |l.runs|
    requires g <= g2 <= i && AllBlank(l, g, g2)
    ensures GapSum(l, k, g, i) == GapSum(l, k, g2, i)
    decreases if i <= l.windows[k].hi then l.windows[k].hi + 1 - i else 0
  {
    if i <= l.windows[k].hi {
      assert AllBlank(l, g, i) <==> AllBlank(l, g2, i);
      GapSumRebase(l, k, g, g2, i + 1);
    }
  }

  /** After a run tried at anchor `a` matched `len` cells (`0 < len < L`) and failed, any
      anchor up to `a + len` would cover the failing cell: these are the anchors the gap loop
      skips. */
  lemma SkippedAnchorFails(l: Line, k: nat, a: nat, len: int, t: nat)
    requires Wf(l) && k < |l.runs|
    requires 0 < len < l.runs[k].len
    requires LenReport(l, a + GapOf(l.runs[k]), l.runs[k].color, l.runs[k].len, len)
    requires a < t <= a + len
    ensures AnchorCount(l, k, t) == 0
  {
    var run := l.runs[k];
    var f := a + GapOf(run) + len;
    assert t + GapOf(run) <= f < t + GapOf(run) + run.len;
    assert !RunCellOk(l, f, run.color);
  }

  /** After a run tried at anchor `a` met a cell already of its colour and then failed, no
      later anchor works: that cell would fall in the gap or in front of a run covering the
      failing cell. This is why the gap loop stops on `len < 0`. */
  lemma ColouredStopsLater(l: Line, k: nat, a: nat, len: int, t: nat)
    requires Wf(l) && k < |l.runs|
    requires len < 0
    requires LenReport(l, a + GapOf(l.runs[k]), l.runs[k].color, l.runs[k].len, len)
    requires a < t && AllBlank(l, a, t)
    ensures AnchorCount(l, k, t) == 0
  {
    var run := l.runs[k];
    var q := a + GapOf(run);
    var m := -len;
    var j :| q <= j < q + m && !(0 <= j < |l.cells| && l.cells[j] == Unknown);
    assert RunCellOk(l, j, run.color);
    assert !Blankable(l, j);
    assert t <= j;
    assert (run.emptyBefore && j == t) || t + GapOf(run) <= q + m < t + GapOf(run) + run.len;
    assert !RunCellOk(l, q + m, run.color);
  }

  /** The guarded sweep is the placement count, saturated. */
  lemma {:induction false} SweepIsCount(l: Line, k: nat, pos: nat)
    requires Wf(l) && Chained(l) && k <= |l.runs|
    requires k < |l.runs| ==> pos <= l.windows[k].hi
    ensures Sweep(l, Guarded, k, pos) == Min(Count(l, k, pos), INT_MAX)
    decreases |l.runs| - k, 4, 0, 0
  {
    if k < |l.runs| {
      var lo := l.windows[k].lo;
      var s: nat := Max(pos, lo);
      if !AllBlank(l, pos, lo) {
        var j :| pos <= j < lo && !Blankable(l, j);
        GapSumBlocked(l, k, pos, s, j);
      } else {
        SweepOpen(l, k, pos, s);
      }
    }
  }

  /** The guarded sweep of run `k` when the cells before its window can stay empty: the first
      anchor `s`, then the gap loop from `s + 1`. */
  lemma {:induction false} SweepOpen(l: Line, k: nat, pos: nat, s: nat)
    requires Wf(l) && Chained(l) && k < |l.runs| && pos <= l.windows[k].hi
    requires AllBlank(l, pos, l.windows[k].lo) && s == Max(pos, l.windows[k].lo)
    ensures Sweep(l, Guarded, k, pos) == Min(Count(l, k, pos), INT_MAX)
    decreases |l.runs| - k, 3, 0, 0
  {
    var first := EmptyThenSet(l, Guarded, k, s);
    assert Sweep(l, Guarded, k, pos) == GapLoop(l, Guarded, k, s + 1, first.1, first.0);
    EmptyThenSetIsAnchor(l, k, s);
    GapLoopIsSum(l, k, s, s + 1, first.1, first.0);
    assert AllBlank(l, pos, s);
    GapSumRebase(l, k, pos, s, s + 1);
    SaturateTwice(0, AnchorCount(l, k, s), GapSum(l, k, s, s + 1));
  }

  /** One anchor of the guarded sweep is that anchor's placement count, saturated. */
  lemma {:induction false} EmptyThenSetIsAnchor(l: Line, k: nat, a: nat)
    requires Wf(l) && Chained(l) && k < |l.runs| && a <= l.windows[k].hi
    ensures EmptyThenSet(l, Guarded, k, a).0 == Min(AnchorCount(l, k, a), INT_MAX)
    decreases |l.runs| - k, 1, 0, 0
  {
    var run := l.runs[k];
    if !(run.emptyBefore && !Blankable(l, a)) {
      var q := a + GapOf(run);
      var m := MatchLen(l, q, run.color, run.len);
      if m == run.len {
        assert k + 1 < |l.runs| ==> ChainedAt(l, k);
        SweepIsCount(l, k + 1, q + run.len);
      } else {
        assert !RunCellOk(l, q + m, run.color);
      }
    }
  }

  /** When the guarded skip finds a cell that cannot stay empty, no anchor from `i` on works:
      the earlier ones would cover the failing cell, the later ones would leave it in the gap. */
  lemma GuardStopsLater(l: Line, k: nat, i: nat, len: int, next: nat)
    requires Wf(l) && k < |l.runs| && 1 <= i <= l.windows[k].hi
    requires 0 < len < l.runs[k].len
    requires LenReport(l, i - 1 + GapOf(l.runs[k]), l.runs[k].color, l.runs[k].len, len)
    requires next <= i + len && !AllBlank(l, i - 1, next)
    ensures GapSum(l, k, i - 1, i) == 0
  {
    var hi := l.windows[k].hi;
    var j :| i - 1 <= j < next && !Blankable(l, j);
    forall t | i <= t <= hi && AllBlank(l, i - 1, t)
      ensures AnchorCount(l, k, t) == 0
    {
      if t <= i - 1 + len {
        SkippedAnchorFails(l, k, i - 1, len, t);
      }
    }
    GapSumSkip(l, k, i - 1, i, hi + 1);
  }

  /** The gap loop of the guarded sweep adds, saturated, the counts of every anchor from `i` on
      behind a gap that can stay empty from `i - 1`. */
  lemma {:induction false} GapLoopIsSum(l: Line, k: nat, a: nat, i: nat, len: int, acc: int)
    requires Wf(l) && Chained(l) && k < |l.runs|
    requires i == a + 1 && i <= l.windows[k].hi + 1 && 0 <= acc <= INT_MAX
    requires len == EmptyThenSet(l, Guarded, k, a).1
    ensures GapLoop(l, Guarded, k, i, len, acc) == Min(acc + GapSum(l, k, i - 1, i), INT_MAX)
    decreases |l.runs| - k, 2, l.windows[k].hi + 1 - i, 1
  {
    var run := l.runs[k];
    var hi := l.windows[k].hi;
    if i <= hi && Blankable(l, a) && len >= 0 {
      var next: nat := if 0 < len < run.len then (if i + len <= hi then i + len else hi) else i;
      if !AllBlank(l, a, next) {
        assert GapLoop(l, Guarded, k, i, len, acc) == acc;
        GuardStopsLater(l, k, i, len, next);
      } else {
        EnterRound(l, k, a, i, len, next);
        GapLoopStep(l, k, a, i, len, acc, next);
      }
    } else if i <= hi && !Blankable(l, a) {
      assert GapLoop(l, Guarded, k, i, len, acc) == acc;
      GapSumBlocked(l, k, a, i, a);
    } else if i <= hi {
      assert GapLoop(l, Guarded, k, i, len, acc) == acc;
      ColouredStops(l, k, a, i, len);
    }
  }

  /** The gap loop goes on to anchor `next` after anchor `a` was tried. */
  lemma EnterRound(l: Line, k: nat, a: nat, i: nat, len: int, next: nat)
    requires Wf(l) && k < |l.runs|
    requires i == a + 1 && i <= l.windows[k].hi
    requires len == EmptyThenSet(l, Guarded, k, a).1 && Blankable(l, a) && len >= 0
    requires next == (if 0 < len < l.runs[k].len then (if i + len <= l.windows[k].hi then i + len else l.windows[k].hi) else i)
    requires AllBlank(l, a, next)
    ensures GapRound(l, k, a, i, len, next)
  {
  }

  /** The gap loop stopped by a cell already of the run's colour has nothing left to count. */
  lemma ColouredStops(l: Line, k: nat, a: nat, i: nat, len: int)
    requires Wf(l) && k < |l.runs|
    requires i == a + 1 && i <= l.windows[k].hi
    requires len == EmptyThenSet(l, Guarded, k, a).1 && Blankable(l, a) && len < 0
    ensures GapSum(l, k, a, i) == 0
  {
    var hi := l.windows[k].hi;
    forall t | i <= t <= hi && AllBlank(l, a, t)
      ensures AnchorCount(l, k, t) == 0
    {
      ColouredStopsLater(l, k, a, len, t);
    }
    GapSumSkip(l, k, a, i, hi + 1);
  }

  /** A round of the guarded gap loop at anchor `i`, after anchor `a = i - 1` was tried and
      reported `len`: the loop goes on, and its guard lets it try anchor `next`. */
  predicate GapRound(l: Line, k: nat, a: nat, i: nat, len: int, next: nat)
    requires Wf(l) && k < |l.runs|
  {
    && i == a + 1 && i <= l.windows[k].hi
    && LenReport(l, a + GapOf(l.runs[k]), l.runs[k].color, l.runs[k].len, len)
    && Blankable(l, a) && len >= 0
    && next == (if 0 < len < l.runs[k].len then (if i + len <= l.windows[k].hi then i + len else l.windows[k].hi) else i)
    && AllBlank(l, a, next)
  }

  /** The guarded gap loop, one round unrolled, when its guard lets anchor `next` be tried. */
  lemma GapLoopUnfold(l: Line, k: nat, a: nat, i: nat, len: int, acc: int, next: nat)
    requires Wf(l) && k < |l.runs| && 0 <= acc <= INT_MAX
    requires GapRound(l, k, a, i, len, next)
    ensures var step := EmptyThenSet(l, Guarded, k, next);
      GapLoop(l, Guarded, k, i, len, acc) ==
      GapLoop(l, Guarded, k, next + 1, step.1, if step.0 > 0 then SumWithLimit(acc, step.0) else acc)
  {
    var step := EmptyThenSet(l, Guarded, k, next);
    var acc' := if step.0 > 0 then SumWithLimit(acc, step.0) else acc;
    var hi := l.windows[k].hi;
    assert 1 <= i <= hi && Blankable(l, i - 1) && len >= 0 && AllBlank(l, i - 1, next);
    assert GapLoop(l, Guarded, k, i, len, acc) == GapLoop(l, Guarded, k, next + 1, step.1, acc');
  }

  /** One round of the gap loop: the skipped anchors contribute nothing, anchor `next` adds its
      count, and the loop goes on from `next + 1`. */
  lemma {:induction false} GapLoopStep(l: Line, k: nat, a: nat, i: nat, len: int, acc: int, next: nat)
    requires Wf(l) && Chained(l) && k < |l.runs| && 0 <= acc <= INT_MAX
    requires GapRound(l, k, a, i, len, next)
    ensures GapLoop(l, Guarded, k, i, len, acc) == Min(acc + GapSum(l, k, a, i), INT_MAX)
    decreases |l.runs| - k, 2, l.windows[k].hi + 1 - i, 0
  {
    var step := EmptyThenSet(l, Guarded, k, next);
    var acc' := if step.0 > 0 then SumWithLimit(acc, step.0) else acc;
    var x := AnchorCount(l, k, next);
    var rest := GapSum(l, k, next, next + 1);
    GapLoopUnfold(l, k, a, i, len, acc, next);
    EmptyThenSetIsAnchor(l, k, next);
    AddAnchor(acc, step.0, x, acc');
    GapLoopIsSum(l, k, next, next + 1, step.1, acc');
    SkipToNext(l, k, a, i, len, next);
    SaturateTwice(acc, x, rest);
  }

  /** Adding an anchor's saturated count to the accumulator, as the gap loop does. */
  lemma AddAnchor(acc: int, c: int, x: nat, acc': int)
    requires 0 <= acc <= INT_MAX && c == Min(x, INT_MAX)
    requires acc' == if c > 0 then SumWithLimit(acc, c) else acc
    ensures acc' == Min(acc + Min(x, INT_MAX), INT_MAX)
  {
  }

  /** The anchors the gap loop skips to reach `next` count nothing. */
  lemma SkipToNext(l: Line, k: nat, a: nat, i: nat, len: int, next: nat)
    requires Wf(l) && k < |l.runs|
    requires GapRound(l, k, a, i, len, next)
    ensures GapSum(l, k, a, i) == AnchorCount(l, k, next) + GapSum(l, k, next, next + 1)
  {
    forall t | i <= t < next
      ensures AnchorCount(l, k, t) == 0
    {
      SkippedAnchorFails(l, k, a, len, t);
    }
    GapSumSkip(l, k, a, i, next);
    assert GapSum(l, k, a, next) == AnchorCount(l, k, next) + GapSum(l, k, a, next + 1);
    GapSumRebase(l, k, a, next, next + 1);
  }

  /** A placement of runs `k..` from `pos`, given by their anchors: each anchor lies in its run's
      window and not before `pos`, the gap in front of it can stay empty, so can its mandatory
      empty cell, its cells can take its colour, and after the last run the rest of the line can
      stay empty. */
  predicate Placement(l: Line, k: nat, pos: nat, anchors: seq<nat>)
    requires Wf(l) && k <= |l.runs|
    decreases |l.runs| - k
  {
    |anchors| == |l.runs| - k &&
    if k == |l.runs| then AllBlank(l, pos, |l.cells|)
    else
      var a := anchors[0];
      var run := l.runs[k];
      var q := a + GapOf(run);
      && pos <= a && l.windows[k].lo <= a <= l.windows[k].hi
      && AllBlank(l, pos, a)
      && (run.emptyBefore ==> Blankable(l, a))
      && RunFits(l, q, run.len, run.color)
      && Placement(l, k + 1, q + run.len, anchors[1..])
  }

  /** The anchors a gap sum ranges over: it is positive exactly when one of them counts. */
  lemma {:induction false} GapSumPositive(l: Line, k: nat, g: nat, i: nat)
    requires Wf(l) && k < |l.runs|
    ensures GapSum(l, k, g, i) > 0 <==>
      exists a :: i <= a <= l.windows[k].hi && AllBlank(l, g, a) && AnchorCount(l, k, a) > 0
    decreases if i <= l.windows[k].hi then l.windows[k].hi + 1 - i else 0
  {
    if i <= l.windows[k].hi {
      GapSumPositive(l, k, g, i + 1);
    }
  }

  /** A positive count has a placement behind it. */
  lemma {:induction false} CountedHasPlacement(l: Line, k: nat, pos: nat)
    requires Wf(l) && k <= |l.runs| && Count(l, k, pos) > 0
    ensures exists anchors :: Placement(l, k, pos, anchors)
    decreases |l.runs| - k
  {
    if k == |l.runs| {
      assert Placement(l, k, pos, []);
    } else {
      var run := l.runs[k];
      var s := Max(pos, l.windows[k].lo);
      GapSumPositive(l, k, pos, s);
      var a :| s <= a <= l.windows[k].hi && AllBlank(l, pos, a) && AnchorCount(l, k, a) > 0;
      var q := a + GapOf(run);
      CountedHasPlacement(l, k + 1, q + run.len);
      var rest :| Placement(l, k + 1, q + run.len, rest);
      assert ([a] + rest)[1..] == rest;
      assert Placement(l, k, pos, [a] + rest);
    }
  }

  /** Every placement is counted. */
  lemma {:induction false} PlacementCounted(l: Line, k: nat, pos: nat, anchors: seq<nat>)
    requires Wf(l) && k <= |l.runs| && Placement(l, k, pos, anchors)
    ensures Count(l, k, pos) > 0
    decreases |l.runs| - k
  {
    if k < |l.runs| {
      var run := l.runs[k];
      var s := Max(pos, l.windows[k].lo);
      var a := anchors[0];
      var q := a + GapOf(run);
      PlacementCounted(l, k + 1, q + run.len, anchors[1..]);
      assert AnchorCount(l, k, a) > 0;
      GapSumPositive(l, k, pos, s);
      assert s <= a <= l.windows[k].hi && AllBlank(l, pos, a);
    }
  }

  /** The placement count is positive exactly when a placement exists. */
  lemma CountPositive(l: Line, k: nat, pos: nat)
    requires Wf(l) && k <= |l.runs|
    ensures Count(l, k, pos) > 0 <==> exists anchors :: Placement(l, k, pos, anchors)
  {
    if Count(l, k, pos) > 0 {
      CountedHasPlacement(l, k, pos);
    }
    if exists anchors :: Placement(l, k, pos, anchors) {
      var anchors :| Placement(l, k, pos, anchors);
      PlacementCounted(l, k, pos, anchors);
    }
  }

  /** The guarded sweep of runs `k..` from `pos` is positive exactly when they can be placed. */
  lemma SweepFindsPlacement(l: Line, k: nat, pos: nat)
    requires Wf(l) && Chained(l) && k <= |l.runs|
    requires k < |l.runs| ==> pos <= l.windows[k].hi
    ensures Sweep(l, Guarded, k, pos) > 0 <==> exists anchors :: Placement(l, k, pos, anchors)
  {
    SweepIsCount(l, k, pos);
    CountPositive(l, k, pos);
  }

  /** A line of six cells under the clue "two `'A'`, one `'B'`", with its static windows: the
      crossing line rules `'A'` out of the first cell, and the third cell already holds `'B'`
      (which the `'B'` run's window covers, so the crossing line may have written it). No
      placement exists: the `'B'` run must cover the third cell, and the `'A'` run would then
      have to cover the first. */
  function SkipExample(): (l: Line)
    ensures Wf(l) && Chained(l)
  {
    var ab := {'A', 'B'};
    Line([Unknown, Unknown, Filled('B'), Unknown, Unknown, Unknown], [{'B'}, ab, ab, ab, ab, ab],
         [Run(2, 'A', false), Run(1, 'B', false)], [Window(0, 3), Window(2, 5)])
  }

  /** The gap scan as written counts one placement of the example: after the `'A'` run tried at
      1 matches one cell and fails on the `'B'` cell, the scan jumps to anchor 3 and makes that
      cell part of the gap without checking it. The guarded scan finds none, as it must. */
  lemma AsWrittenSkipCountsBlockedGap()
    ensures Sweep(SkipExample(), AsWritten, 0, 0) == 1
    ensures Sweep(SkipExample(), Guarded, 0, 0) == 0
    ensures !exists anchors :: Placement(SkipExample(), 0, 0, anchors)
  {
    var l := SkipExample();
    assert MatchLen(l, 0, 'A', 2) == 0;
    assert EmptyThenSet(l, AsWritten, 0, 0) == (0, 0);
    assert EmptyThenSet(l, Guarded, 0, 0) == (0, 0);
    assert MatchLen(l, 2, 'A', 1) == 0;
    assert MatchLen(l, 1, 'A', 2) == 1;
    assert Untouched(l, 1, 1);
    assert EmptyThenSet(l, AsWritten, 0, 1) == (0, 1);
    assert EmptyThenSet(l, Guarded, 0, 1) == (0, 1);
    assert MatchLen(l, 4, 'A', 1) == 1;
    assert MatchLen(l, 3, 'A', 2) == 2;
    assert MatchLen(l, 5, 'B', 1) == 1;
    assert Sweep(l, AsWritten, 2, 6) == 1;
    assert GapLoop(l, AsWritten, 1, 6, 1, 1) == 1;
    assert Sweep(l, AsWritten, 1, 5) == 1;
    assert EmptyThenSet(l, AsWritten, 0, 3) == (1, 2);
    assert GapLoop(l, AsWritten, 0, 4, 2, 1) == 1;
    assert GapLoop(l, AsWritten, 0, 2, 1, 0) == 1;
    assert GapLoop(l, AsWritten, 0, 1, 0, 0) == 1;
    assert !Blankable(l, 2);
    assert GapLoop(l, Guarded, 0, 2, 1, 0) == 0;
    assert GapLoop(l, Guarded, 0, 1, 0, 0) == 0;
    SweepFindsPlacement(l, 0, 0);
  }
}
