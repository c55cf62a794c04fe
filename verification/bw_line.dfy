/** One line of the black-and-white solver (nonogram.c `choose_column`/`try_column_set` and their
    row twins, 222-350). A cell holds 0 when unknown, `p+1` when filled by clue `p` and `-p-1`
    when emptied by clue `p`; so any positive value is filled and any negative value is empty,
    whichever clue wrote it. A line's enumeration marks the gap cells before each run empty and
    the run's cells filled, with its own marks, and undoes every mark on the way back. Each time
    the whole line is placed it either recurses into the search (`run = 1`) or counts one option
    (`run = 0`), giving up once the count reaches the best count seen so far. */
module BwLine {
  import opened Limits

  /** `change_cell` (nonogram.c:352-356): the cell takes `to` only if it holds `from`. */
  function ChangeInt(v: int, from: int, to: int): (r: int)
    ensures v == from ==> r == to
    ensures v != from ==> r == v
  {
    if v == from then to else v
  }

  /** A change and its reverse restore a cell that did not already hold `to` (or held `from`). */
  lemma ChangeIntUndo(v: int, from: int, to: int)
    requires v == from || v != to
    ensures ChangeInt(ChangeInt(v, from, to), to, from) == v
  {
  }

  /** `change_cell` over the cells `[lo, hi)`. */
  function Change(cells: seq<int>, lo: int, hi: int, from: int, to: int): (r: seq<int>)
    ensures |r| == |cells|
  {
    seq(|cells|, i requires 0 <= i < |cells| => if lo <= i < hi then ChangeInt(cells[i], from, to) else cells[i])
  }

  /** The clue being enumerated: its position `p` (columns first, then rows) and its runs. */
  datatype Ctx = Ctx(p: nat, sets: seq<nat>)

  /** The clue's own marks. */
  function Filled(x: Ctx): int { x.p + 1 }
  function Emptied(x: Ctx): int { -(x.p as int) - 1 }

  function SumFrom(sets: seq<nat>, k: nat): nat
    decreases |sets| - k
  {
    if k >= |sets| then 0 else sets[k] + SumFrom(sets, k + 1)
  }

  /** The cells runs `k..` need from where the previous run ended (the `len_min` argument):
      their lengths, plus one gap cell in front of every run but the first. */
  function Rem(sets: seq<nat>, k: nat): nat {
    if k >= |sets| then 0
    else if k == 0 then SumFrom(sets, 0) + |sets| - 1
    else SumFrom(sets, k) + |sets| - k
  }

  /** The gap run `k` needs in front of it: none for the first run, one cell for the others. */
  function GapNeed(k: nat): nat { if k == 0 then 0 else 1 }

  lemma RemStep(sets: seq<nat>, k: nat)
    requires k < |sets|
    ensures Rem(sets, k) == GapNeed(k) + sets[k] + Rem(sets, k + 1)
  {
    assert SumFrom(sets, k) == sets[k] + SumFrom(sets, k + 1);
    if k + 1 == |sets| {
      assert Rem(sets, k + 1) == 0 && SumFrom(sets, k + 1) == 0;
    } else {
      assert Rem(sets, k + 1) == SumFrom(sets, k + 1) + |sets| - (k + 1);
    }
  }

  /** How a line's enumeration is used. */
  datatype Mode = Run | Count(cap: nat)

  /** The counting call gives up once its count reached the cap (nonogram.c:224-226). */
  predicate Aborted(mode: Mode, opts: nat) {
    mode.Count? && opts == mode.cap
  }

  /** The line states at which the whole clue was placed, in order, and the cells left behind. */
  datatype Outcome = Outcome(visits: seq<seq<int>>, cells: seq<int>)

  /** The first cell from `i` on, up to `end`, that is filled; `end` when there is none. */
  function ScanEmpty(cells: seq<int>, i: nat, end: nat): (r: nat)
    requires i <= end <= |cells|
    ensures i <= r <= end
    ensures forall t :: i <= t < r ==> cells[t] <= 0
    ensures r < end ==> cells[r] > 0
    decreases end - i
  {
    if i == end || cells[i] > 0 then i else ScanEmpty(cells, i + 1, end)
  }

  /** The first cell from `i` on, up to `end`, that is empty; `end` when there is none. */
  function ScanFill(cells: seq<int>, i: nat, end: nat): (r: nat)
    requires i <= end <= |cells|
    ensures i <= r <= end
    ensures forall t :: i <= t < r ==> cells[t] >= 0
    ensures r < end ==> cells[r] < 0
    decreases end - i
  {
    if i == end || cells[i] < 0 then i else ScanFill(cells, i + 1, end)
  }

  /** The tail of `choose_column` (nonogram.c:227-243): the rest of the line is marked empty
      while it can be; the clue is placed when that reaches the end of the line. */
  function Tail(x: Ctx, cells: seq<int>, pos: nat): (r: Outcome)
    requires pos <= |cells|
    ensures |r.cells| == |cells|
  {
    var j := ScanEmpty(cells, pos, |cells|);
    var m := Change(cells, pos, j, 0, Emptied(x));
    Outcome(if j == |cells| then [m] else [], Change(m, pos, j, Emptied(x), 0))
  }

  /** What `choose_column` is given: the runs left, the room they need, and a position that
      leaves that room. The first run is chosen from the start of the line. */
  predicate ChooseArgs(x: Ctx, cells: seq<int>, k: nat, rem: nat, pos: nat) {
    k <= |x.sets| && rem == Rem(x.sets, k) && pos + rem <= |cells| && (k == 0 ==> pos == 0)
  }

  /** What `try_column_set` is given: run `k` starts at `s` and, with the runs after it, fits
      in the line. */
  predicate TryArgs(x: Ctx, cells: seq<int>, k: nat, rem: nat, s: nat) {
    k < |x.sets| && rem == Rem(x.sets, k) && s + x.sets[k] + Rem(x.sets, k + 1) <= |cells|
  }

  /** `choose_column` (nonogram.c:222-267). The first run is tried at the start of the line and
      after every cell that can be empty, up to the last start that leaves room for the clue;
      a later run needs the cell at `pos` empty and is tried after it and after each further
      cell that can be empty. The bound for a later run is the corrected one (see the
      Findings): the last start that leaves room. */
  function Choose(x: Ctx, mode: Mode, opts: nat, cells: seq<int>, k: nat, rem: nat, pos: nat): (r: Outcome)
    requires ChooseArgs(x, cells, k, rem, pos)
    ensures |r.cells| == |cells|
    decreases |x.sets| - k, 2, 0
  {
    if Aborted(mode, opts) then Outcome([], cells)
    else if k == |x.sets| then Tail(x, cells, pos)
    else if k == 0 then From(x, mode, opts, cells, k, rem, pos, pos + |cells| - rem)
    else if cells[pos] <= 0 then
      var inner := From(x, mode, opts, Change(cells, pos, pos + 1, 0, Emptied(x)), k, rem, pos + 1, LastStart(|cells|, rem));
      Outcome(inner.visits, Change(inner.cells, pos, pos + 1, Emptied(x), 0))
    else Outcome([], cells)
  }

  /** The last start of a later run that leaves room for the runs after it: `rem` counts the
      run's gap cell, its cells and the room the later runs need. */
  function LastStart(n: nat, rem: nat): int {
    n - rem + 1
  }

  /** The corrected bound is exact: a later run fits at `s`, with room for the runs after it,
      exactly when `s` is at most `LastStart`. */
  lemma LastStartExact(x: Ctx, k: nat, n: nat, s: nat)
    requires 0 < k < |x.sets|
    ensures s + x.sets[k] + Rem(x.sets, k + 1) <= n <==> s <= LastStart(n, Rem(x.sets, k))
  {
    RemStep(x.sets, k);
  }

  /** The last start of a later run as written (nonogram.c:258, 323): the loop runs `i` while
      `i <= pos + rows_n - len_min`, measuring from the run's position rather than from the start
      of the line, and tries the run at `i + 1`. */
  function LastStartAsWritten(n: nat, pos: nat, rem: nat): int {
    pos + n - rem + 1
  }

  /** As written, the bound lies `pos` cells past the corrected one. With the clue `1,1` in a line
      of 3 cells, after the first run is placed at cell 0, the second run is tried at cell 3:
      outside the line, so the try reads and writes a cell that belongs to no cell of this line. */
  lemma AsWrittenStartOverruns()
    ensures var x := Ctx(0, [1, 1]);
      && TryArgs(x, [1, 0, 0], 0, Rem(x.sets, 0), 0)
      && ChooseArgs(x, [1, 0, 0], 1, Rem(x.sets, 1), 1)
      && LastStartAsWritten(3, 1, Rem(x.sets, 1)) == 3
      && LastStart(3, Rem(x.sets, 1)) == 2
      && 3 + x.sets[1] > 3
  {
    var x := Ctx(0, [1, 1]);
    assert Rem(x.sets, 0) == 3 && Rem(x.sets, 1) == 2;
  }

  /** What the loops of `choose_column` are given: run `k` is tried at `s` and at most at
      `stop`, and each of those starts leaves room for the runs after it. */
  predicate FromArgs(x: Ctx, cells: seq<int>, k: nat, rem: nat, s: nat, stop: nat) {
    k < |x.sets| && rem == Rem(x.sets, k) && s <= stop && stop + x.sets[k] + Rem(x.sets, k + 1) <= |cells|
  }

  /** The loops of `choose_column` (nonogram.c:245-252, 256-264): run `k` is tried at `s`; then,
      while `s` is below `stop` and cell `s` can be empty, it is marked empty and the run is
      tried from `s + 1` on; the marks are undone afterwards, last first. */
  function From(x: Ctx, mode: Mode, opts: nat, cells: seq<int>, k: nat, rem: nat, s: nat, stop: nat): (r: Outcome)
    requires FromArgs(x, cells, k, rem, s, stop)
    ensures |r.cells| == |cells|
    decreases |x.sets| - k, 1, stop - s
  {
    var first := TrySet(x, mode, opts, cells, k, rem, s);
    if s < stop && first.cells[s] <= 0 then
      var rest := From(x, mode, opts + |first.visits|, Change(first.cells, s, s + 1, 0, Emptied(x)), k, rem, s + 1, stop);
      Outcome(first.visits + rest.visits, Change(rest.cells, s, s + 1, Emptied(x), 0))
    else first
  }

  /** `try_column_set` (nonogram.c:269-285): the run's cells are marked filled while they can
      be; when all of them are, the next run is chosen right after it. */
  function TrySet(x: Ctx, mode: Mode, opts: nat, cells: seq<int>, k: nat, rem: nat, s: nat): (r: Outcome)
    requires TryArgs(x, cells, k, rem, s)
    ensures |r.cells| == |cells|
    decreases |x.sets| - k, 0, 0
  {
    var len := x.sets[k];
    var j := ScanFill(cells, s, s + len);
    var m := Change(cells, s, j, 0, Filled(x));
    var inner :=
      if j == s + len then RemStep(x.sets, k); Choose(x, mode, opts, m, k + 1, rem - len - GapNeed(k), j)
      else Outcome([], m);
    Outcome(inner.visits, Change(inner.cells, s, j, Filled(x), 0))
  }

  /** None of the cells from `from` on holds one of the clue's own marks: the enumeration has
      not reached them yet. */
  predicate NoOwn(x: Ctx, cells: seq<int>, from: nat) {
    forall i :: from <= i < |cells| ==> cells[i] != Filled(x) && cells[i] != Emptied(x)
  }

  /** Marking a range and unmarking it restores cells that did not already hold the mark. */
  lemma ChangeBack(cells: seq<int>, lo: int, hi: int, from: int, to: int)
    requires forall i :: 0 <= i < |cells| && lo <= i < hi ==> cells[i] == from || cells[i] != to
    ensures Change(Change(cells, lo, hi, from, to), lo, hi, to, from) == cells
  {
    var m := Change(cells, lo, hi, from, to);
    var r := Change(m, lo, hi, to, from);
    forall i | 0 <= i < |cells|
      ensures r[i] == cells[i]
    {
      if lo <= i < hi {
        ChangeIntUndo(cells[i], from, to);
      }
    }
  }

  lemma TailUndo(x: Ctx, cells: seq<int>, pos: nat)
    requires pos <= |cells| && NoOwn(x, cells, pos)
    ensures Tail(x, cells, pos).cells == cells
  {
    var j := ScanEmpty(cells, pos, |cells|);
    ChangeBack(cells, pos, j, 0, Emptied(x));
  }

  /** Every `choose_column` call leaves the cells exactly as it found them (nonogram.c:239-241,
      250-252, 262-264), in both modes, whether or not it gave up. */
  lemma {:induction false} ChooseUndo(x: Ctx, mode: Mode, opts: nat, cells: seq<int>, k: nat, rem: nat, pos: nat)
    requires ChooseArgs(x, cells, k, rem, pos) && NoOwn(x, cells, pos)
    ensures Choose(x, mode, opts, cells, k, rem, pos).cells == cells
    decreases |x.sets| - k, 2, 0
  {
    if Aborted(mode, opts) {
    } else if k == |x.sets| {
      TailUndo(x, cells, pos);
    } else if k == 0 {
      FromUndo(x, mode, opts, cells, k, rem, pos, pos + |cells| - rem);
    } else if cells[pos] <= 0 {
      var m := Change(cells, pos, pos + 1, 0, Emptied(x));
      FromUndo(x, mode, opts, m, k, rem, pos + 1, |cells| - rem + 1);
      ChangeBack(cells, pos, pos + 1, 0, Emptied(x));
    }
  }

  lemma {:induction false} FromUndo(x: Ctx, mode: Mode, opts: nat, cells: seq<int>, k: nat, rem: nat, s: nat, stop: nat)
    requires FromArgs(x, cells, k, rem, s, stop) && NoOwn(x, cells, s)
    ensures From(x, mode, opts, cells, k, rem, s, stop).cells == cells
    decreases |x.sets| - k, 1, stop - s
  {
    var first := TrySet(x, mode, opts, cells, k, rem, s);
    TrySetUndo(x, mode, opts, cells, k, rem, s);
    if s < stop && cells[s] <= 0 {
      var m := Change(cells, s, s + 1, 0, Emptied(x));
      FromUndo(x, mode, opts + |first.visits|, m, k, rem, s + 1, stop);
      ChangeBack(cells, s, s + 1, 0, Emptied(x));
    }
  }

  /** Every `try_column_set` call leaves the cells exactly as it found them
      (nonogram.c:282-284). */
  lemma {:induction false} TrySetUndo(x: Ctx, mode: Mode, opts: nat, cells: seq<int>, k: nat, rem: nat, s: nat)
    requires TryArgs(x, cells, k, rem, s) && NoOwn(x, cells, s)
    ensures TrySet(x, mode, opts, cells, k, rem, s).cells == cells
    decreases |x.sets| - k, 0, 0
  {
    var len := x.sets[k];
    var j := ScanFill(cells, s, s + len);
    var m := Change(cells, s, j, 0, Filled(x));
    if j == s + len {
      RemStep(x.sets, k);
      ChooseUndo(x, mode, opts, m, k + 1, rem - len - GapNeed(k), j);
    }
    ChangeBack(cells, s, j, 0, Filled(x));
  }
}
