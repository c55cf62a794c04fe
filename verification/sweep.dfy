/** The single-line sweep of the coloured solver (src/nonogram.c `sweep_column`,
    `sweep_column_empty_then_set`, `sweep_column_set` and their row twins, which differ only in
    how a cell is addressed). A sweep counts, with saturation at INT_MAX, the ways the runs from
    `k` onward can still be placed from position `pos` against the cells already known.

    Run `k` is tried at every anchor `a` of its window: the anchor is the run's first cell, or
    the mandatory empty cell in front of it when the run has `emptyBefore`. The cells between
    the previous run and the anchor form a gap and must be able to stay empty. Past the last
    run, the rest of the line must be able to stay empty; in the source that check is the
    header run, whose window is `(L, L)`. */
module LineSweep {
  import opened Limits
  import opened ClueSetup

  /** A cell as one sweep reads it: unknown, settled empty, or settled to a colour. Cells the
      sweep itself marks lie behind the position it reads from, so they never show here. */
  datatype Cell = Unknown | Empty | Filled(color: char)

  /** The anchors a run may take, inclusive (`color_bounds_min/max[BOUNDS_SWP]`). */
  datatype Window = Window(lo: int, hi: int)

  /** How the gap scan treats the cells it skips after a run failed part-way: as written it
      makes them gap cells without checking them; guarded, it checks them first. */
  datatype Skip = AsWritten | Guarded

  /** One line: its cells, the colours each unknown cell may take according to the crossing
      line (`match_crossed_clue(...) > 0`), the runs of its clue and their windows. */
  datatype Line = Line(cells: seq<Cell>, allowed: seq<set<char>>, runs: seq<Run>, windows: seq<Window>)

  predicate Wf(l: Line) {
    |l.allowed| == |l.cells| && |l.windows| == |l.runs|
  }

  /** A cell that may stay empty: unknown or empty. Positions off the line never qualify. */
  predicate Blankable(l: Line, i: int) {
    0 <= i < |l.cells| && (l.cells[i] == Unknown || l.cells[i] == Empty)
  }

  predicate AllBlank(l: Line, a: int, b: int) {
    forall i :: a <= i < b ==> Blankable(l, i)
  }

  /** A cell a run of colour `c` may cover: already `c`, or unknown and allowed by the crossing
      line. */
  predicate RunCellOk(l: Line, i: int, c: char)
    requires Wf(l)
  {
    0 <= i < |l.cells| && ((l.cells[i] == Unknown && c in l.allowed[i]) || l.cells[i] == Filled(c))
  }

  predicate RunFits(l: Line, p: int, n: nat, c: char)
    requires Wf(l)
  {
    forall i :: p <= i < p + n ==> RunCellOk(l, i, c)
  }

  /** All of `[p, p + m)` is unknown: `change_cell` succeeded on every cell the run matched. */
  predicate Untouched(l: Line, p: int, m: nat) {
    forall i :: p <= i < p + m ==> 0 <= i < |l.cells| && l.cells[i] == Unknown
  }

  /** How far a run of colour `c` and length `n` matches from `p` (the scan of
      `sweep_column_set`, src/nonogram.c:958-962). */
  function MatchLen(l: Line, p: nat, c: char, n: nat): (m: nat)
    requires Wf(l)
    ensures m <= n
    ensures RunFits(l, p, m, c)
    ensures m < n ==> !RunCellOk(l, p + m, c)
    decreases n
  {
    if n == 0 || !RunCellOk(l, p, c) then 0 else 1 + MatchLen(l, p + 1, c, n - 1)
  }

  /** What `*len` reports about a run of colour `c` and length `n` tried at `q`: `n` when it
      fits; otherwise the length `m` of the matched prefix and the failing cell after it, with
      `m` negated when a matched cell was already coloured. */
  predicate LenReport(l: Line, q: nat, c: char, n: nat, len: int)
    requires Wf(l)
  {
    && -(n as int) <= len <= n
    && (len == n ==> RunFits(l, q, n, c))
    && (0 <= len < n ==> RunFits(l, q, len, c) && Untouched(l, q, len) && !RunCellOk(l, q + len, c))
    && (len < 0 ==> -len < n && RunFits(l, q, -len, c) && !Untouched(l, q, -len) && !RunCellOk(l, q - len, c))
  }

  /** `sweep_column` (src/nonogram.c:839-912) without its cache: the count of placements of
      runs `k..` from `pos`. Before the window a cell that cannot stay empty ends the sweep;
      after the last run the rest of the line must be able to stay empty. */
  function Sweep(l: Line, mode: Skip, k: nat, pos: nat): (r: int)
    requires Wf(l) && k <= |l.runs|
    ensures 0 <= r <= INT_MAX
    decreases |l.runs| - k, 3, 0
  {
    if k == |l.runs| then (if AllBlank(l, pos, |l.cells|) then 1 else 0)
    else if !AllBlank(l, pos, l.windows[k].lo) then 0
    else
      var s: nat := Max(pos, l.windows[k].lo);
      var first := EmptyThenSet(l, mode, k, s);
      GapLoop(l, mode, k, s + 1, first.1, first.0)
  }

  /** The gap loop of `sweep_column` (src/nonogram.c:864-885): anchor `i` is tried while it is
      inside the window, the cell before it can stay empty and the previous try did not meet a
      cell already of the run's colour (`len >= 0`). After a run matched `len` cells and then
      failed, the anchors whose run would cover the failing cell are skipped. */
  function GapLoop(l: Line, mode: Skip, k: nat, i: nat, len: int, acc: int): (r: int)
    requires Wf(l) && k < |l.runs| && 1 <= i && 0 <= acc <= INT_MAX
    ensures acc <= r <= INT_MAX
    decreases |l.runs| - k, 2, if i <= l.windows[k].hi then l.windows[k].hi + 1 - i else 0
  {
    var run := l.runs[k];
    var hi := l.windows[k].hi;
    if i <= hi && Blankable(l, i - 1) && len >= 0 then
      var next: nat := if 0 < len < run.len then (if i + len <= hi then i + len else hi) else i;
      if mode == Guarded && !AllBlank(l, i - 1, next) then acc
      else
        var step := EmptyThenSet(l, mode, k, next);
        var acc' := if step.0 > 0 then SumWithLimit(acc, step.0) else acc;
        GapLoop(l, mode, k, next + 1, step.1, acc')
    else acc
  }

  /** `sweep_column_empty_then_set` (src/nonogram.c:914-954) without its cache: a run with
      `emptyBefore` needs its anchor cell to stay empty and starts one cell later. */
  function EmptyThenSet(l: Line, mode: Skip, k: nat, a: nat): (res: (int, int))
    requires Wf(l) && k < |l.runs|
    ensures 0 <= res.0 <= INT_MAX
    ensures l.runs[k].emptyBefore && !Blankable(l, a) ==> res == (0, 0)
    ensures !(l.runs[k].emptyBefore && !Blankable(l, a)) ==>
      LenReport(l, a + GapOf(l.runs[k]), l.runs[k].color, l.runs[k].len, res.1)
    ensures res.0 > 0 ==> res.1 == l.runs[k].len
    decreases |l.runs| - k, 1, 0
  {
    var run := l.runs[k];
    if run.emptyBefore then
      if Blankable(l, a) then SetAt(l, mode, k, a + 1) else (0, 0)
    else SetAt(l, mode, k, a)
  }

  /** `sweep_column_set` (src/nonogram.c:956-986): the run either covers `[q, q + len)` and the
      sweep goes on with the next run after it, or it fails with nothing counted. */
  function SetAt(l: Line, mode: Skip, k: nat, q: nat): (res: (int, int))
    requires Wf(l) && k < |l.runs|
    ensures 0 <= res.0 <= INT_MAX
    ensures LenReport(l, q, l.runs[k].color, l.runs[k].len, res.1)
    ensures res.0 > 0 ==> res.1 == l.runs[k].len
    decreases |l.runs| - k, 0, 0
  {
    var run := l.runs[k];
    var m := MatchLen(l, q, run.color, run.len);
    if m == run.len then (Sweep(l, mode, k + 1, q + run.len), m)
    else (0, if Untouched(l, q, m) then m as int else -(m as int))
  }
}
