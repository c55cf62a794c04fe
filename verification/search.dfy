/** The frame discipline of the coloured solver's recursive search `nonogram`
    (src/nonogram.c:576-761). A frame settles cells, clues and runs, pushing each on a locked
    stack and covering it in its ring; on exit it pops the stacks in reverse, uncovering each
    element, resets the cells it settled to unknown, clears its own infeasibility markers and
    restores the current windows from the snapshot it took on entry. The result is the number
    of cells the frame settled, or `-grid_size` for a dead or cut-off frame. */
module Search {
  import opened CellState
  import LineSweep
  import opened Rings

  /** What one frame of the search may change: the ring of clues still open, the ring of runs
      still open, the column and row rings of cells still unknown, the cells, and every run's
      current colour and empty windows (`BOUNDS_CUR`). Cells are numbered in one index space
      shared by the cell table and both cell rings. */
  datatype Board = Board(
    clues: Ring, sets: Ring, columns: Ring, rows: Ring,
    cells: seq<Slot>, colorCur: seq<LineSweep.Window>, emptyCur: seq<LineSweep.Window>)

  /** The three locked stacks of one frame, bottom first. */
  datatype Locks = Locks(sets: seq<nat>, clues: seq<nat>, cells: seq<nat>)

  predicate Indexes(r: Ring, xs: seq<nat>) {
    Wf(r) && forall i :: 0 <= i < |xs| ==> xs[i] < |r.next|
  }

  /** The board is shaped so that the locks can be popped: every stacked element exists in its
      ring, and the cell rings number the cells of the table. */
  predicate Poppable(b: Board, lk: Locks) {
    && Indexes(b.sets, lk.sets) && Indexes(b.clues, lk.clues)
    && Indexes(b.columns, lk.cells) && Indexes(b.rows, lk.cells)
    && |b.columns.next| == |b.cells| && |b.rows.next| == |b.cells|
  }

  /** The cells after the unwinding loop's `init_cell(..., COLOR_UNKNOWN, CLUE_POS_UNKNOWN)`. */
  function ResetCells(cells: seq<Slot>, xs: seq<nat>): (r: seq<Slot>)
    ensures |r| == |cells|
  {
    seq(|cells|, i requires 0 <= i < |cells| => if i in xs then UnknownSlot else cells[i])
  }

  /** The exit of `nonogram` (src/nonogram.c:737-759): runs are uncovered, then clues, then
      cells, each stack last-in first-out; `uncover_cell` relinks a cell in its row ring and its
      column ring, which are independent of each other, and the cell is reset to unknown. The
      current windows are restored from the entry snapshot `color_bounds_*[depth+BOUNDS_BCK]`.
      Clearing the frame's cache markers is `Caches.FrameUndo`. */
  function Unwind(b: Board, lk: Locks, colorSnap: seq<LineSweep.Window>, emptySnap: seq<LineSweep.Window>): (u: Board)
    requires Poppable(b, lk)
    ensures Poppable(u, lk)
    ensures forall i :: 0 <= i < |lk.cells| ==> u.cells[lk.cells[i]] == UnknownSlot
    ensures u.colorCur == colorSnap && u.emptyCur == emptySnap
  {
    Board(
      UncoverAll(b.clues, lk.clues), UncoverAll(b.sets, lk.sets),
      UncoverAll(b.columns, lk.cells), UncoverAll(b.rows, lk.cells),
      ResetCells(b.cells, lk.cells), colorSnap, emptySnap)
  }

  /** The elements that are open at the start of a frame, ring by ring. */
  datatype Open = Open(clues: set<nat>, sets: set<nat>, columns: set<nat>, rows: set<nat>)

  /** What the frame body leaves behind, seen from the frame that entered with `b0`: each ring
      has exactly its own locked elements covered, in push order (nested frames have already
      undone themselves), only locked cells changed, and they were unknown when locked. */
  predicate FrameBody(b0: Board, open: Open, lk: Locks, b: Board) {
    && Linked(b0.clues, open.clues) && Linked(b0.sets, open.sets)
    && Linked(b0.columns, open.columns) && Linked(b0.rows, open.rows)
    && DistinctMembers(lk.clues, open.clues) && DistinctMembers(lk.sets, open.sets)
    && DistinctMembers(lk.cells, open.columns) && DistinctMembers(lk.cells, open.rows)
    && |b0.columns.next| == |b0.cells| && |b0.rows.next| == |b0.cells|
    && b.clues == CoverAll(b0.clues, lk.clues) && b.sets == CoverAll(b0.sets, lk.sets)
    && b.columns == CoverAll(b0.columns, lk.cells) && b.rows == CoverAll(b0.rows, lk.cells)
    && |b.cells| == |b0.cells|
    && (forall i :: 0 <= i < |b0.cells| && i !in lk.cells ==> b.cells[i] == b0.cells[i])
    && (forall i :: 0 <= i < |lk.cells| ==> b0.cells[lk.cells[i]] == UnknownSlot)
  }

  /** A frame is an exact undo: unwinding it with the snapshot taken on entry gives back the
      board it was entered with, rings, cells and windows alike. */
  lemma UnwindRestores(b0: Board, open: Open, lk: Locks, b: Board)
    requires FrameBody(b0, open, lk, b)
    ensures Poppable(b, lk)
    ensures Unwind(b, lk, b0.colorCur, b0.emptyCur) == b0
  {
    assert Poppable(b, lk);
    assert UncoverAll(b.clues, lk.clues) == b0.clues by {
      UncoverAllCoverAll(b0.clues, open.clues, lk.clues);
    }
    assert UncoverAll(b.sets, lk.sets) == b0.sets by {
      UncoverAllCoverAll(b0.sets, open.sets, lk.sets);
    }
    assert UncoverAll(b.columns, lk.cells) == b0.columns by {
      UncoverAllCoverAll(b0.columns, open.columns, lk.cells);
    }
    assert UncoverAll(b.rows, lk.cells) == b0.rows by {
      UncoverAllCoverAll(b0.rows, open.rows, lk.cells);
    }
    ResetRestores(b0.cells, b.cells, lk.cells);
  }

  /** Resetting the locked cells gives back the cells as they were, when only locked cells
      changed and each was unknown before. */
  lemma ResetRestores(cells0: seq<Slot>, cells: seq<Slot>, xs: seq<nat>)
    requires |cells| == |cells0|
    requires forall i :: 0 <= i < |cells0| && i !in xs ==> cells[i] == cells0[i]
    requires forall j :: 0 <= j < |xs| && xs[j] < |cells0| ==> cells0[xs[j]] == UnknownSlot
    ensures ResetCells(cells, xs) == cells0
  {
    var r := ResetCells(cells, xs);
    forall i | 0 <= i < |cells0|
      ensures r[i] == cells0[i]
    {
      if i in xs {
        var j :| 0 <= j < |xs| && xs[j] == i;
      }
    }
  }

  /** The value a frame returns (src/nonogram.c:580-582, 731-736): `-grid_size` when the
      solution limit was already reached or some open clue had no placement left, else the
      number of cells it settled. */
  function FrameResult(solutionsN: nat, solutionsMax: nat, optionsMin: int, lockedCellsN: nat, gridSize: nat): (r: int)
    requires gridSize > 0
    ensures r >= 0 <==> solutionsN != solutionsMax && optionsMin > 0
    ensures r >= 0 ==> r == lockedCellsN
    ensures r < 0 ==> r == -(gridSize as int)
  {
    if solutionsN == solutionsMax then -(gridSize as int)
    else if optionsMin > 0 then lockedCellsN
    else -(gridSize as int)
  }

  /** After a line's sweep (src/nonogram.c:619-633 for a column, 637-651 for a row): walking
      the line's still-unknown cells in ring order, a cell whose scratch slot carries the
      sweeping clue's position is settled to the scratch colour, marked with `clues_n`, and
      pushed on the locked stack. `line[j]` is the `j`-th cell of the walk and `scratch[j]` its
      scratch slot. */
  function LockLine(cells: seq<Slot>, line: seq<nat>, scratch: seq<Slot>, cluePos: int, cluesN: int): (r: (seq<Slot>, seq<nat>))
    requires |scratch| == |line| && forall j :: 0 <= j < |line| ==> line[j] < |cells|
    ensures |r.0| == |cells|
    ensures forall x :: x in r.1 <==> exists j :: 0 <= j < |line| && line[j] == x && scratch[j].cluePos == cluePos
    decreases |line|
  {
    if |line| == 0 then (cells, [])
    else
      var n := |line| - 1;
      var prior := LockLine(cells, line[..n], scratch[..n], cluePos, cluesN);
      if scratch[n].cluePos == cluePos
      then (prior.0[line[n] := Slot(scratch[n].color, cluesN)], prior.1 + [line[n]])
      else prior
  }

  /** Locking a line writes exactly its settled cells: each gets its scratch colour and the
      settled mark, and every other cell keeps its value. */
  lemma {:induction false} LockLineWrites(cells: seq<Slot>, line: seq<nat>, scratch: seq<Slot>, cluePos: int, cluesN: int)
    requires |scratch| == |line| && forall j :: 0 <= j < |line| ==> line[j] < |cells|
    requires forall i, j :: 0 <= i < j < |line| ==> line[i] != line[j]
    ensures forall j :: 0 <= j < |line| && scratch[j].cluePos == cluePos ==>
      LockLine(cells, line, scratch, cluePos, cluesN).0[line[j]] == Slot(scratch[j].color, cluesN)
    ensures forall i :: 0 <= i < |cells| && i !in LockLine(cells, line, scratch, cluePos, cluesN).1 ==>
      LockLine(cells, line, scratch, cluePos, cluesN).0[i] == cells[i]
    decreases |line|
  {
    if |line| > 0 {
      var n := |line| - 1;
      LockLineWrites(cells, line[..n], scratch[..n], cluePos, cluesN);
      forall j | 0 <= j < n ensures line[..n][j] == line[j] && scratch[..n][j] == scratch[j] && line[j] != line[n] { }
    }
  }

  /** The cells a sweep settles are exactly those on which every counted placement agreed: when
      each scratch slot is the merge of the colours the placements reported for that cell, a
      cell is locked exactly when one single colour was reported for it. */
  lemma LockedIffAgreed(cells: seq<Slot>, line: seq<nat>, reports: seq<seq<char>>, cluePos: int, cluesN: int)
    requires |reports| == |line| && forall j :: 0 <= j < |line| ==> line[j] < |cells|
    requires forall i, j :: 0 <= i < j < |line| ==> line[i] != line[j]
    requires forall j, i :: 0 <= j < |reports| && 0 <= i < |reports[j]| ==> Reportable(reports[j][i])
    requires cluePos != CLUE_POS_UNKNOWN && cluePos != cluesN
    ensures var scratch := seq(|line|, j requires 0 <= j < |line| => CheckAll(reports[j], cluePos, cluesN));
      forall j :: 0 <= j < |line| ==>
        (line[j] in LockLine(cells, line, scratch, cluePos, cluesN).1 <==> exists c :: Elems(reports[j]) == {c})
  {
    var scratch := seq(|line|, j requires 0 <= j < |line| => CheckAll(reports[j], cluePos, cluesN));
    forall j | 0 <= j < |line|
      ensures scratch[j].cluePos == cluePos <==> exists c :: Elems(reports[j]) == {c}
    {
      CheckAllIsJoin(reports[j], cluePos, cluesN);
    }
  }
}
