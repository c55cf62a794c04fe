/** Cells of the coloured solver (src/nonogram.c): the guarded write `change_cell`, and the
    per-cell merge `check_column_cell` / `check_row_cell` into the scratch row or column. */
module CellState {
  import opened ClueSetup

  /** A cell as the coloured solver stores it: a colour character and the position of the clue
      that wrote it (src/nonogram.c:66-75). */
  datatype Slot = Slot(color: char, cluePos: int)

  const CLUE_POS_UNKNOWN: int := -1

  /** The state every cell starts in and is reset to on backtrack. */
  const UnknownSlot: Slot := Slot(COLOR_UNKNOWN, CLUE_POS_UNKNOWN)

  /** `change_cell` (src/nonogram.c:1295-1301): the cell takes `to` and the call reports success
      only when the cell holds exactly `from`, colour and clue position both. */
  function ChangeCell(cell: Slot, from: Slot, to: Slot): (r: (Slot, bool))
    ensures r.1 <==> cell == from
    ensures r.1 ==> r.0 == to
    ensures !r.1 ==> r.0 == cell
  {
    if cell.color == from.color && cell.cluePos == from.cluePos then (to, true) else (cell, false)
  }

  /** A change followed by its inverse restores any cell that did not already hold the target. */
  lemma ChangeCellUndo(cell: Slot, from: Slot, to: Slot)
    requires cell != to || from == to
    ensures ChangeCell(ChangeCell(cell, from, to).0, to, from).0 == cell
  {
  }

  /** `change_cell` applied to every cell of `[lo, hi)`, as the sweep's marking loops do. */
  function ChangeRange(cells: seq<Slot>, lo: nat, hi: nat, from: Slot, to: Slot): (r: seq<Slot>)
    requires lo <= hi <= |cells|
    ensures |r| == |cells|
    decreases hi - lo
  {
    if lo == hi then cells
    else ChangeRange(cells, lo, hi - 1, from, to)[hi - 1 := ChangeCell(cells[hi - 1], from, to).0]
  }

  /** The cells a marking loop changes are exactly those of the range that held `from`. */
  lemma {:induction false} ChangeRangeEffect(cells: seq<Slot>, lo: nat, hi: nat, from: Slot, to: Slot)
    requires lo <= hi <= |cells|
    ensures forall j :: 0 <= j < |cells| ==>
      ChangeRange(cells, lo, hi, from, to)[j] == if lo <= j < hi && cells[j] == from then to else cells[j]
    decreases hi - lo
  {
    if lo < hi {
      ChangeRangeEffect(cells, lo, hi - 1, from, to);
    }
  }

  /** Marking a range and then unmarking it restores every cell, provided none of them already
      held the mark: the sweep leaves the line as it found it. */
  lemma RangeUndo(cells: seq<Slot>, lo: nat, hi: nat, from: Slot, to: Slot)
    requires lo <= hi <= |cells|
    requires forall j :: lo <= j < hi ==> cells[j] != to
    ensures ChangeRange(ChangeRange(cells, lo, hi, from, to), lo, hi, to, from) == cells
  {
    var marked := ChangeRange(cells, lo, hi, from, to);
    ChangeRangeEffect(cells, lo, hi, from, to);
    ChangeRangeEffect(marked, lo, hi, to, from);
  }

  /** `check_column_cell` / `check_row_cell` (src/nonogram.c:988-997, 1148-1157): merge one
      reported colour into the scratch cell. */
  function CheckCell(scratch: Slot, color: char, cluePos: int, cluesN: int): Slot {
    if scratch.color == COLOR_UNKNOWN then Slot(color, cluePos)
    else if scratch.color != COLOR_SEVERAL && scratch.color != color then Slot(COLOR_SEVERAL, cluesN)
    else scratch
  }

  /** A colour a sweep may report for a cell: never the unknown or several markers. */
  predicate Reportable(c: char) {
    c != COLOR_UNKNOWN && c != COLOR_SEVERAL
  }

  /** The scratch cell after the colours `cs` were reported, in order, from the reset state. */
  function CheckAll(cs: seq<char>, cluePos: int, cluesN: int): Slot {
    if |cs| == 0 then UnknownSlot else CheckCell(CheckAll(cs[..|cs| - 1], cluePos, cluesN), cs[|cs| - 1], cluePos, cluesN)
  }

  function Elems(cs: seq<char>): set<char> {
    set i | 0 <= i < |cs| :: cs[i]
  }

  /** The join of a set of reported colours: unknown for none, the colour for one, several
      for two or more. */
  ghost function JoinOf(s: set<char>, cluePos: int, cluesN: int): Slot {
    if s == {} then UnknownSlot
    else if exists c :: s == {c} then (var c :| s == {c}; Slot(c, cluePos))
    else Slot(COLOR_SEVERAL, cluesN)
  }

  /** The merge is a join: whatever the order and repetition of the reports, the scratch cell
      ends as the join of the SET of reported colours. In particular it carries the sweeping
      clue's position, which is how the solver recognises a settled cell, exactly when a single
      colour was reported. */
  lemma {:induction false} CheckAllIsJoin(cs: seq<char>, cluePos: int, cluesN: int)
    requires forall i :: 0 <= i < |cs| ==> Reportable(cs[i])
    requires cluePos != CLUE_POS_UNKNOWN && cluePos != cluesN
    ensures CheckAll(cs, cluePos, cluesN) == JoinOf(Elems(cs), cluePos, cluesN)
    ensures CheckAll(cs, cluePos, cluesN).cluePos == cluePos <==> exists c :: Elems(cs) == {c}
  {
    if |cs| > 0 {
      var init := cs[..|cs| - 1];
      var last := cs[|cs| - 1];
      CheckAllIsJoin(init, cluePos, cluesN);
      assert Elems(cs) == Elems(init) + {last} by {
        forall x | x in Elems(cs) ensures x in Elems(init) + {last} {
          var i :| 0 <= i < |cs| && cs[i] == x;
          if i < |cs| - 1 {
            assert init[i] == x;
          }
        }
        forall x | x in Elems(init) ensures x in Elems(cs) {
          var i :| 0 <= i < |init| && init[i] == x;
          assert cs[i] == x;
        }
      }
      var prev := Elems(init);
      if prev == {} {
        assert Elems(cs) == {last};
      } else if exists c :: prev == {c} {
        var c :| prev == {c};
        assert c in Elems(init);
        assert Reportable(c);
        if c == last {
          assert Elems(cs) == {c};
        } else {
          assert c in Elems(cs) && last in Elems(cs);
          assert forall d :: Elems(cs) != {d};
        }
      } else {
        var a :| a in prev;
        assert prev != {a};
        assert exists b :: b in prev && b != a;
        var b :| b in prev && b != a;
        assert a in Elems(cs) && b in Elems(cs);
        assert forall d :: Elems(cs) != {d};
      }
    }
  }
}
