/** One frame of the black-and-white search `nonogram` (nonogram.c:170-220): when no clue is left
    open the grid is a solution; otherwise every open clue's placements are counted, the clue with
    the fewest is taken, and unless it has none it is unlinked from the ring, its placements are
    enumerated with the search recursing at each, and it is linked back. The recursive call made
    at each placement is a visit of the enumeration here. */
module BwSearch {
  import opened Limits
  import opened BwLine
  import opened BwPlacements
  import Rings

  /** The placements of clue `x` in its line, from the start of the line. */
  function Options(x: Ctx, line: seq<int>): nat {
    |Placements(x, line, 0, 0)|
  }

  /** An open clue ready to be counted: its runs fit its line, and none of its own marks is on
      the grid, since every enumeration of it has undone its marks. */
  predicate Countable(x: Ctx, line: seq<int>) {
    Rem(x.sets, 0) <= |line| && NoOwn(x, line, 0)
  }

  /** The selection loop of `nonogram` (nonogram.c:192-209) over the open clues in ring order,
      `xs[i]` with line `lines[i]`. Each clue is counted by `choose_column(clue, 0, len_min, 0, 0)`
      with the cap `options_min`, the smallest count so far; the loop stops once some clue has no
      placement. The ring header starts as the minimum with INT_MAX options: `best == -1` means
      that no clue had fewer, and the header itself was kept. The result is the first clue with
      the fewest placements. */
  method SelectClue(xs: seq<Ctx>, lines: seq<seq<int>>) returns (best: int, min: int)
    requires |lines| == |xs| && forall i :: 0 <= i < |xs| ==> Countable(xs[i], lines[i])
    ensures -1 <= best < |xs|
    ensures best == -1 <==> forall i :: 0 <= i < |xs| ==> Options(xs[i], lines[i]) >= INT_MAX
    ensures best == -1 ==> min == INT_MAX
    ensures best >= 0 ==> min == Options(xs[best], lines[best])
    ensures best >= 0 ==> forall i :: 0 <= i < |xs| ==> Options(xs[best], lines[best]) <= Options(xs[i], lines[i])
    ensures best >= 0 ==> forall i :: 0 <= i < best ==> Options(xs[i], lines[i]) > Options(xs[best], lines[best])
  {
    best, min := -1, INT_MAX;
    var i := 0;
    while i < |xs| && min > 0
      invariant 0 <= i <= |xs| && -1 <= best < i && 0 <= min <= INT_MAX
      invariant best == -1 <==> forall j :: 0 <= j < i ==> Options(xs[j], lines[j]) >= INT_MAX
      invariant best == -1 ==> min == INT_MAX
      invariant best >= 0 ==> min == Options(xs[best], lines[best])
      invariant best >= 0 ==> forall j :: 0 <= j < i ==> min <= Options(xs[j], lines[j])
      invariant best >= 0 ==> forall j :: 0 <= j < best ==> Options(xs[j], lines[j]) > min
    {
      var x, line := xs[i], lines[i];
      CountsPlacements(x, min, 0, line);
      var n := |Choose(x, Count(min), 0, line, 0, Rem(x.sets, 0), 0).visits|;
      if n < min {
        best, min := i, n;
      }
      i := i + 1;
    }
  }

  /** What a frame does. */
  datatype Step = Solved | Dead | Branch(clue: int)

  /** The decision of one frame (nonogram.c:172-213): a solution when the ring is empty, a dead
      end when the selected clue has no placement, and a branch on it otherwise. `Branch(-1)`
      is the case where every open clue has at least INT_MAX placements: the selection kept
      the ring header, and the program goes on to unlink and enumerate the header itself, whose
      position and runs are not those of any clue (nonogram.c:192-216). */
  method Decide(xs: seq<Ctx>, lines: seq<seq<int>>) returns (s: Step)
    requires |lines| == |xs| && forall i :: 0 <= i < |xs| ==> Countable(xs[i], lines[i])
    ensures s == Solved <==> |xs| == 0
    ensures s == Dead <==> exists i :: 0 <= i < |xs| && Options(xs[i], lines[i]) == 0
    ensures s.Branch? && s.clue >= 0 ==> s.clue < |xs| && forall i :: 0 <= i < |xs| ==> 0 < Options(xs[s.clue], lines[s.clue]) <= Options(xs[i], lines[i])
  {
    if |xs| == 0 {
      return Solved;
    }
    var best, min := SelectClue(xs, lines);
    if min == 0 {
      s := Dead;
    } else {
      s := Branch(best);
      if best == -1 {
        assert Options(xs[0], lines[0]) >= INT_MAX;
      }
    }
  }

  /** A branching frame, seen from the ring and the branched clue's line. */
  datatype Frame = Frame(during: Rings.Ring, visits: seq<seq<int>>, ringAfter: Rings.Ring, lineAfter: seq<int>)

  /** The branch of `nonogram` (nonogram.c:210-219): the clue is unlinked from the ring, its
      placements are enumerated with `run = 1`, and it is linked back. */
  function BranchOn(r: Rings.Ring, clue: nat, x: Ctx, line: seq<int>): (f: Frame)
    requires Rings.Wf(r) && clue < |r.next| && Rem(x.sets, 0) <= |line|
  {
    var covered := Rings.Cover(r, clue);
    var o := Choose(x, Run, 0, line, 0, Rem(x.sets, 0), 0);
    Frame(covered, o.visits, Rings.Uncover(covered, clue), o.cells)
  }

  /** While the branched clue's placements are enumerated it is out of the ring, the search
      recurses once at each placement of the grammar with that placement painted on its line,
      and the frame gives back the ring and the line it was entered with. */
  lemma BranchRestores(r: Rings.Ring, open: set<nat>, clue: nat, x: Ctx, line: seq<int>, v: seq<int>)
    requires Rings.Linked(r, open) && clue in open && Countable(x, line)
    ensures Rings.Linked(BranchOn(r, clue, x, line).during, open - {clue})
    ensures v in BranchOn(r, clue, x, line).visits
      <==> exists ss :: Fits(x, line, 0, 0, ss) && |ss| == |x.sets| && v == Paint(x, line, 0, 0, ss)
    ensures BranchOn(r, clue, x, line).ringAfter == r
    ensures BranchOn(r, clue, x, line).lineAfter == line
  {
    Rings.CoverUnlinks(r, open, clue);
    Rings.UncoverCover(r, open, clue);
    RunsPlacements(x, line, v);
    ChooseUndo(x, Run, 0, line, 0, Rem(x.sets, 0), 0);
  }

  /** `nonogram` at a solution (nonogram.c:173-191): the count goes up, and the grid is printed
      when this is the first solution. */
  function OnSolution(solutionsN: nat): (r: (nat, bool))
    ensures r.0 == solutionsN + 1
    ensures r.1 <==> solutionsN == 0
  {
    var n := solutionsN + 1;
    (n, n == 1)
  }

  /** The number of grids printed over `k` further solutions, from a count of `start`. */
  function Printed(start: nat, k: nat): nat
    decreases k
  {
    if k == 0 then 0
    else
      var (n, printed) := OnSolution(start);
      (if printed then 1 else 0) + Printed(n, k - 1)
  }

  lemma {:induction false} NoneAfterFirst(start: nat, k: nat)
    requires start > 0
    ensures Printed(start, k) == 0
    decreases k
  {
    if k > 0 {
      NoneAfterFirst(start + 1, k - 1);
    }
  }

  /** However many solutions the search finds, exactly one grid is printed if there is any. */
  lemma PrintedOnce(k: nat)
    ensures Printed(0, k) == Min(k, 1)
  {
    if k > 0 {
      NoneAfterFirst(1, k - 1);
    }
  }
}
