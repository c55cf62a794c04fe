/** `match_crossed_clue` (src/nonogram.c:1166-1184): before a run claims an unknown cell, the
    sweep asks the crossing line how many of its runs of the same colour can still cover that
    cell, judged by their current windows. The scan stops at the first run whose window starts
    after the cell, which is exact because a clue's windows start in order. */
module CrossMatch {
  import opened ClueSetup
  import opened LineSweep

  /** Run `run` of the crossing line, anchored anywhere in window `w`, can cover cell `p` of
      that line with colour `c`. */
  predicate Covers(run: Run, w: Window, p: int, c: char) {
    w.lo + GapOf(run) <= p < run.len + GapOf(run) + w.hi && run.color == c
  }

  /** The number of runs, among all of them, that can cover cell `p` with colour `c`. */
  function CoverCount(runs: seq<Run>, ws: seq<Window>, p: int, c: char): nat
    requires |ws| == |runs|
  {
    if |runs| == 0 then 0
    else CoverCount(runs[..|runs| - 1], ws[..|runs| - 1], p, c)
         + (if Covers(runs[|runs| - 1], ws[|runs| - 1], p, c) then 1 else 0)
  }

  /** The windows start in clue order: a later run never starts before an earlier one. */
  predicate Ascending(runs: seq<Run>, ws: seq<Window>)
    requires |ws| == |runs|
  {
    forall i, j :: 0 <= i < j < |runs| ==> ws[i].lo + GapOf(runs[i]) <= ws[j].lo + GapOf(runs[j])
  }

  /** Runs that cannot cover the cell do not change the count. */
  lemma {:induction false} CoverCountPrefix(runs: seq<Run>, ws: seq<Window>, p: int, c: char, i: nat)
    requires |ws| == |runs| && i <= |runs|
    requires forall j :: i <= j < |runs| ==> !Covers(runs[j], ws[j], p, c)
    ensures CoverCount(runs[..i], ws[..i], p, c) == CoverCount(runs, ws, p, c)
    decreases |runs|
  {
    if i < |runs| {
      var n := |runs| - 1;
      assert runs[..n][..i] == runs[..i] && ws[..n][..i] == ws[..i];
      CoverCountPrefix(runs[..n], ws[..n], p, c, i);
    } else {
      assert runs[..i] == runs && ws[..i] == ws;
    }
  }

  /** A positive count names a covering run. */
  lemma {:induction false} CoverCountWitness(runs: seq<Run>, ws: seq<Window>, p: int, c: char)
    requires |ws| == |runs|
    ensures CoverCount(runs, ws, p, c) > 0 <==> exists i :: 0 <= i < |runs| && Covers(runs[i], ws[i], p, c)
    decreases |runs|
  {
    if |runs| > 0 {
      var n := |runs| - 1;
      CoverCountWitness(runs[..n], ws[..n], p, c);
      if exists i :: 0 <= i < |runs| && Covers(runs[i], ws[i], p, c) {
        var i :| 0 <= i < |runs| && Covers(runs[i], ws[i], p, c);
        if i < n {
          assert runs[..n][i] == runs[i] && ws[..n][i] == ws[i];
        }
      }
      if CoverCount(runs[..n], ws[..n], p, c) > 0 {
        var i :| 0 <= i < n && Covers(runs[..n][i], ws[..n][i], p, c);
        assert Covers(runs[i], ws[i], p, c);
      }
    }
  }

  /** `match_crossed_clue` without its cache: the runs of the crossing line are scanned in order
      while their windows start at or before the cell. The count is never more than the true one,
      and equals it when the windows start in order, as a clue's windows do; so the cell is
      allowed exactly when some run of the colour can cover it. */
  method MatchCrossedClue(runs: seq<Run>, ws: seq<Window>, p: int, c: char) returns (r: nat)
    requires |ws| == |runs|
    ensures r <= CoverCount(runs, ws, p, c)
    ensures Ascending(runs, ws) ==> r == CoverCount(runs, ws, p, c)
    ensures Ascending(runs, ws) ==> (r > 0 <==> exists i :: 0 <= i < |runs| && Covers(runs[i], ws[i], p, c))
  {
    r := 0;
    var i := 0;
    while i < |runs| && ws[i].lo + GapOf(runs[i]) <= p
      invariant 0 <= i <= |runs|
      invariant r == CoverCount(runs[..i], ws[..i], p, c)
    {
      if runs[i].len + GapOf(runs[i]) + ws[i].hi > p && runs[i].color == c {
        r := r + 1;
      }
      assert runs[..i + 1][..i] == runs[..i] && ws[..i + 1][..i] == ws[..i];
      i := i + 1;
    }
    CountMonotone(runs, ws, p, c, i);
    if Ascending(runs, ws) {
      if i < |runs| {
        forall j | i <= j < |runs|
          ensures !Covers(runs[j], ws[j], p, c)
        {
          assert ws[i].lo + GapOf(runs[i]) <= ws[j].lo + GapOf(runs[j]);
        }
      }
      CoverCountPrefix(runs, ws, p, c, i);
      CoverCountWitness(runs, ws, p, c);
    }
  }

  /** The count over a prefix never exceeds the count over the whole clue. */
  lemma {:induction false} CountMonotone(runs: seq<Run>, ws: seq<Window>, p: int, c: char, i: nat)
    requires |ws| == |runs| && i <= |runs|
    ensures CoverCount(runs[..i], ws[..i], p, c) <= CoverCount(runs, ws, p, c)
    decreases |runs|
  {
    if i < |runs| {
      var n := |runs| - 1;
      assert runs[..n][..i] == runs[..i] && ws[..n][..i] == ws[..i];
      CountMonotone(runs[..n], ws[..n], p, c, i);
    } else {
      assert runs[..i] == runs && ws[..i] == ws;
    }
  }
}
