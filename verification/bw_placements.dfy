/** What the black-and-white line enumeration visits, stated without its marks and loops: the
    placements of a clue in a line are the lists of run starts that follow the placement grammar
    of nonogram.c:227-285 (the first run after any number of cells that can be empty, every later
    run after at least one, run cells that can be filled, and a tail that can be empty). */
module BwPlacements {
  import opened Limits
  import opened BwLine

  /** Cells `[lo, hi)` exist and none of them is filled. */
  predicate CanEmpty(c: seq<int>, lo: nat, hi: nat) {
    hi <= |c| && forall i :: lo <= i < hi ==> c[i] <= 0
  }

  /** Cells `[lo, hi)` exist and none of them is empty. */
  predicate CanFill(c: seq<int>, lo: nat, hi: nat) {
    hi <= |c| && forall i :: lo <= i < hi ==> c[i] >= 0
  }

  /** `ss` lists the starts of runs `k..` of the clue, placed from cell `g` on: each run follows a
      gap that can be empty and is at least `GapNeed` long, its own cells can be filled, and the
      cells after the last run can be empty. */
  predicate Fits(x: Ctx, c: seq<int>, k: nat, g: nat, ss: seq<nat>)
    decreases |x.sets| - k
  {
    if k >= |x.sets| then ss == [] && CanEmpty(c, g, |c|)
    else
      && |ss| > 0 && g + GapNeed(k) <= ss[0]
      && CanEmpty(c, g, ss[0]) && CanFill(c, ss[0], ss[0] + x.sets[k])
      && Fits(x, c, k + 1, ss[0] + x.sets[k], ss[1..])
  }

  function Prepend(t: nat, pss: seq<seq<nat>>): (r: seq<seq<nat>>)
    ensures |r| == |pss|
  {
    seq(|pss|, i requires 0 <= i < |pss| => [t] + pss[i])
  }

  /** The placements of runs `k..` from cell `g`, ordered by the first start, then the second, and
      so on. */
  function Placements(x: Ctx, c: seq<int>, k: nat, g: nat): seq<seq<nat>>
    decreases |x.sets| - k, 1, 0
  {
    if k >= |x.sets| then (if CanEmpty(c, g, |c|) then [[]] else [])
    else StartsFrom(x, c, k, g, g + GapNeed(k))
  }

  /** The placements of runs `k..` from cell `g` whose run `k` starts at `t` or later. */
  function StartsFrom(x: Ctx, c: seq<int>, k: nat, g: nat, t: nat): seq<seq<nat>>
    requires k < |x.sets|
    decreases |x.sets| - k, 0, |c| + 1 - t
  {
    if t + x.sets[k] > |c| then []
    else At(x, c, k, g, t) + StartsFrom(x, c, k, g, t + 1)
  }

  /** The placements of runs `k..` from cell `g` whose run `k` starts exactly at `t`. */
  function At(x: Ctx, c: seq<int>, k: nat, g: nat, t: nat): seq<seq<nat>>
    requires k < |x.sets|
    decreases |x.sets| - k, 0, 0
  {
    if CanEmpty(c, g, t) && CanFill(c, t, t + x.sets[k])
    then Prepend(t, Placements(x, c, k + 1, t + x.sets[k]))
    else []
  }

  /** The line a placement leaves behind: every unknown gap cell and tail cell marked empty and
      every unknown run cell marked filled, with the clue's own marks. */
  function Paint(x: Ctx, c: seq<int>, k: nat, g: nat, ss: seq<nat>): (r: seq<int>)
    requires k <= |x.sets| && |ss| == |x.sets| - k
    ensures |r| == |c|
    decreases |ss|
  {
    if k == |x.sets| then Change(c, g, |c|, 0, Emptied(x))
    else
      var s := ss[0];
      var e := s + x.sets[k];
      Paint(x, Change(Change(c, g, s, 0, Emptied(x)), s, e, 0, Filled(x)), k + 1, e, ss[1..])
  }

  /** Every listed placement has one start per run. */
  predicate Shaped(x: Ctx, k: nat, pss: seq<seq<nat>>) {
    k <= |x.sets| && forall i :: 0 <= i < |pss| ==> |pss[i]| == |x.sets| - k
  }

  function Lines(x: Ctx, c: seq<int>, k: nat, g: nat, pss: seq<seq<nat>>): (r: seq<seq<int>>)
    requires Shaped(x, k, pss)
    ensures |r| == |pss|
  {
    seq(|pss|, i requires 0 <= i < |pss| => Paint(x, c, k, g, pss[i]))
  }

  /** The counting call stays within its cap. */
  predicate ModeOk(mode: Mode, opts: nat) {
    mode.Count? ==> opts <= mode.cap
  }

  /** What a call sees of the full list of line states: all of them when running, and as many
      as are left before the cap when counting. */
  function Take(mode: Mode, opts: nat, vs: seq<seq<int>>): (r: seq<seq<int>>)
    requires ModeOk(mode, opts)
    ensures mode.Run? ==> r == vs
    ensures mode.Count? ==> r == vs[..Min(|vs|, mode.cap - opts)]
  {
    if mode.Run? then vs else vs[..Min(|vs|, mode.cap - opts)]
  }

  // ---------------------------------------------------------------------------------------
  // The enumeration lists exactly the placements of the grammar.

  lemma {:induction false} PlacementsShaped(x: Ctx, c: seq<int>, k: nat, g: nat)
    requires k <= |x.sets|
    ensures Shaped(x, k, Placements(x, c, k, g))
    decreases |x.sets| - k, 1, 0
  {
    if k < |x.sets| {
      StartsFromShaped(x, c, k, g, g + GapNeed(k));
    }
  }

  lemma {:induction false} StartsFromShaped(x: Ctx, c: seq<int>, k: nat, g: nat, t: nat)
    requires k < |x.sets|
    ensures Shaped(x, k, StartsFrom(x, c, k, g, t))
    decreases |x.sets| - k, 0, |c| + 1 - t
  {
    if t + x.sets[k] <= |c| {
      AtShaped(x, c, k, g, t);
      StartsFromShaped(x, c, k, g, t + 1);
    }
  }

  lemma {:induction false} AtShaped(x: Ctx, c: seq<int>, k: nat, g: nat, t: nat)
    requires k < |x.sets|
    ensures Shaped(x, k, At(x, c, k, g, t))
    decreases |x.sets| - k, 0, 0
  {
    if CanEmpty(c, g, t) && CanFill(c, t, t + x.sets[k]) {
      PlacementsShaped(x, c, k + 1, t + x.sets[k]);
    }
  }

  /** A start list is enumerated exactly when it follows the grammar. */
  lemma {:induction false} PlacementsFit(x: Ctx, c: seq<int>, k: nat, g: nat, ss: seq<nat>)
    ensures ss in Placements(x, c, k, g) <==> Fits(x, c, k, g, ss)
    decreases |x.sets| - k, 1, 0
  {
    if k < |x.sets| {
      StartsFromFit(x, c, k, g, g + GapNeed(k), ss);
    }
  }

  lemma {:induction false} StartsFromFit(x: Ctx, c: seq<int>, k: nat, g: nat, t: nat, ss: seq<nat>)
    requires k < |x.sets| && g + GapNeed(k) <= t
    ensures ss in StartsFrom(x, c, k, g, t) <==> Fits(x, c, k, g, ss) && t <= ss[0]
    decreases |x.sets| - k, 0, |c| + 1 - t
  {
    if t + x.sets[k] <= |c| {
      AtFit(x, c, k, g, t, ss);
      StartsFromFit(x, c, k, g, t + 1, ss);
    }
  }

  lemma {:induction false} AtFit(x: Ctx, c: seq<int>, k: nat, g: nat, t: nat, ss: seq<nat>)
    requires k < |x.sets| && g + GapNeed(k) <= t
    ensures ss in At(x, c, k, g, t) <==> Fits(x, c, k, g, ss) && ss[0] == t
    decreases |x.sets| - k, 0, 0
  {
    var len := x.sets[k];
    if CanEmpty(c, g, t) && CanFill(c, t, t + len) {
      var rest := Placements(x, c, k + 1, t + len);
      if ss in At(x, c, k, g, t) {
        var i :| 0 <= i < |rest| && ss == [t] + rest[i];
        assert ss[1..] == rest[i];
        PlacementsFit(x, c, k + 1, t + len, rest[i]);
      }
      if Fits(x, c, k, g, ss) && ss[0] == t {
        PlacementsFit(x, c, k + 1, t + len, ss[1..]);
        var i :| 0 <= i < |rest| && rest[i] == ss[1..];
        assert Prepend(t, rest)[i] == ss;
      }
    }
  }

  // ---------------------------------------------------------------------------------------
  // Facts about the enumeration used to follow `choose_column`.

  lemma ChangeNone(c: seq<int>, g: int, from: int, to: int)
    ensures Change(c, g, g, from, to) == c
  {
  }

  /** Marking a range one more cell to the right. */
  lemma ChangeExtend(c: seq<int>, g: int, s: int, from: int, to: int)
    requires g <= s
    ensures Change(Change(c, g, s, from, to), s, s + 1, from, to) == Change(c, g, s + 1, from, to)
  {
  }

  /** The placements from `g` on read only the cells from `g` on. */
  lemma {:induction false} PlacementsLocal(x: Ctx, c: seq<int>, d: seq<int>, k: nat, g: nat)
    requires |c| == |d| && forall i :: g <= i < |c| ==> c[i] == d[i]
    ensures Placements(x, c, k, g) == Placements(x, d, k, g)
    decreases |x.sets| - k, 1, 0
  {
    if k < |x.sets| {
      StartsFromLocal(x, c, d, k, g, g + GapNeed(k));
    }
  }

  lemma {:induction false} StartsFromLocal(x: Ctx, c: seq<int>, d: seq<int>, k: nat, g: nat, t: nat)
    requires k < |x.sets| && g <= t
    requires |c| == |d| && forall i :: g <= i < |c| ==> c[i] == d[i]
    ensures StartsFrom(x, c, k, g, t) == StartsFrom(x, d, k, g, t)
    decreases |x.sets| - k, 0, |c| + 1 - t
  {
    if t + x.sets[k] <= |c| {
      assert CanEmpty(c, g, t) == CanEmpty(d, g, t);
      assert CanFill(c, t, t + x.sets[k]) == CanFill(d, t, t + x.sets[k]);
      PlacementsLocal(x, c, d, k + 1, t + x.sets[k]);
      StartsFromLocal(x, c, d, k, g, t + 1);
    }
  }

  /** Runs `k..` need `Rem(k)` cells from `g`; with fewer left there is no placement. */
  lemma {:induction false} NoRoom(x: Ctx, c: seq<int>, k: nat, g: nat)
    requires g <= |c| < g + Rem(x.sets, k)
    ensures Placements(x, c, k, g) == []
    decreases |x.sets| - k, 1, 0
  {
    if k < |x.sets| {
      RemStep(x.sets, k);
      StartsFromNoRoom(x, c, k, g, g + GapNeed(k));
    }
  }

  lemma {:induction false} StartsFromNoRoom(x: Ctx, c: seq<int>, k: nat, g: nat, t: nat)
    requires k < |x.sets| && |c| < t + x.sets[k] + Rem(x.sets, k + 1)
    ensures StartsFrom(x, c, k, g, t) == []
    decreases |x.sets| - k, 0, |c| + 1 - t
  {
    if t + x.sets[k] <= |c| {
      NoRoom(x, c, k + 1, t + x.sets[k]);
      StartsFromNoRoom(x, c, k, g, t + 1);
    }
  }

  /** Once a filled cell lies between `g` and the start, no later start has an emptiable gap. */
  lemma {:induction false} Blocked(x: Ctx, c: seq<int>, k: nat, g: nat, b: nat, t: nat)
    requires k < |x.sets| && g <= b < t && b < |c| && c[b] > 0
    ensures StartsFrom(x, c, k, g, t) == []
    decreases |c| + 1 - t
  {
    if t + x.sets[k] <= |c| {
      assert !CanEmpty(c, g, t);
      Blocked(x, c, k, g, b, t + 1);
    }
  }

  lemma LinesConcat(x: Ctx, c: seq<int>, k: nat, g: nat, a: seq<seq<nat>>, b: seq<seq<nat>>)
    requires Shaped(x, k, a) && Shaped(x, k, b)
    ensures Shaped(x, k, a + b)
    ensures Lines(x, c, k, g, a + b) == Lines(x, c, k, g, a) + Lines(x, c, k, g, b)
  {
    assert Shaped(x, k, a + b) by {
      forall i | 0 <= i < |a + b| ensures |(a + b)[i]| == |x.sets| - k {
        if i >= |a| { assert (a + b)[i] == b[i - |a|]; }
      }
    }
  }

  /** Painting a placement whose first run starts at `s` is painting the rest of it on the line
      with that run and its gap marked. */
  lemma LinesPrepend(x: Ctx, c: seq<int>, k: nat, g: nat, s: nat, pss: seq<seq<nat>>)
    requires k < |x.sets| && Shaped(x, k + 1, pss)
    ensures Shaped(x, k, Prepend(s, pss))
    ensures Lines(x, c, k, g, Prepend(s, pss))
      == Lines(x, Change(Change(c, g, s, 0, Emptied(x)), s, s + x.sets[k], 0, Filled(x)), k + 1, s + x.sets[k], pss)
  {
    var m := Change(Change(c, g, s, 0, Emptied(x)), s, s + x.sets[k], 0, Filled(x));
    forall i | 0 <= i < |pss|
      ensures Paint(x, c, k, g, Prepend(s, pss)[i]) == Paint(x, m, k + 1, s + x.sets[k], pss[i])
    {
      assert Prepend(s, pss)[i][0] == s && Prepend(s, pss)[i][1..] == pss[i];
    }
  }

  /** A counting call that reports `a` in full or up to the cap, followed by one that reports
      `b` from where it stopped, reports `a + b` up to the cap. */
  lemma TakeConcat(mode: Mode, opts: nat, a: seq<seq<int>>, b: seq<seq<int>>)
    requires ModeOk(mode, opts)
    ensures ModeOk(mode, opts + |Take(mode, opts, a)|)
    ensures Take(mode, opts, a) + Take(mode, opts + |Take(mode, opts, a)|, b) == Take(mode, opts, a + b)
  {
    if mode.Count? {
      if |a| <= mode.cap - opts {
        assert (a + b)[..Min(|a + b|, mode.cap - opts)] == a + b[..Min(|b|, mode.cap - opts - |a|)];
      } else {
        assert (a + b)[..Min(|a + b|, mode.cap - opts)] == a[..mode.cap - opts];
      }
    }
  }

  // ---------------------------------------------------------------------------------------
  // `choose_column` visits exactly the painted placements.

  /** `choose_column` reaches the end of the line once per placement of the grammar, in
      enumeration order, each time with that placement painted on the line; a counting call sees
      the same states up to its cap. */
  lemma {:induction false} ChooseVisits(x: Ctx, mode: Mode, opts: nat, c: seq<int>, k: nat, rem: nat, pos: nat)
    requires ChooseArgs(x, c, k, rem, pos) && NoOwn(x, c, pos) && ModeOk(mode, opts)
    ensures Shaped(x, k, Placements(x, c, k, pos))
    ensures Choose(x, mode, opts, c, k, rem, pos).visits == Take(mode, opts, Lines(x, c, k, pos, Placements(x, c, k, pos)))
    decreases |x.sets| - k, 3, 0, 0
  {
    PlacementsShaped(x, c, k, pos);
    if Aborted(mode, opts) {
      assert Choose(x, mode, opts, c, k, rem, pos).visits == [];
    } else if k == |x.sets| {
      ChooseTail(x, mode, opts, c, k, rem, pos);
    } else if k == 0 {
      ChooseFirst(x, mode, opts, c, k, rem, pos);
    } else if c[pos] <= 0 {
      ChooseLater(x, mode, opts, c, k, rem, pos);
    } else {
      Blocked(x, c, k, pos, pos, pos + 1);
      assert Choose(x, mode, opts, c, k, rem, pos).visits == [];
    }
  }

  /** `ChooseVisits` once every run is placed: the rest of the line is the tail. */
  lemma ChooseTail(x: Ctx, mode: Mode, opts: nat, c: seq<int>, k: nat, rem: nat, pos: nat)
    requires ChooseArgs(x, c, k, rem, pos) && ModeOk(mode, opts) && !Aborted(mode, opts) && k == |x.sets|
    ensures Shaped(x, k, Placements(x, c, k, pos))
    ensures Choose(x, mode, opts, c, k, rem, pos).visits == Take(mode, opts, Lines(x, c, k, pos, Placements(x, c, k, pos)))
  {
    assert Choose(x, mode, opts, c, k, rem, pos) == Tail(x, c, pos);
    assert Paint(x, c, k, pos, []) == Change(c, pos, |c|, 0, Emptied(x));
  }

  /** `ChooseVisits` for the first run, tried from the start of the line. */
  lemma {:induction false} ChooseFirst(x: Ctx, mode: Mode, opts: nat, c: seq<int>, k: nat, rem: nat, pos: nat)
    requires ChooseArgs(x, c, k, rem, pos) && NoOwn(x, c, pos) && ModeOk(mode, opts)
    requires !Aborted(mode, opts) && k < |x.sets| && k == 0
    ensures Shaped(x, k, Placements(x, c, k, pos))
    ensures Choose(x, mode, opts, c, k, rem, pos).visits == Take(mode, opts, Lines(x, c, k, pos, Placements(x, c, k, pos)))
    decreases |x.sets| - k, 2, 0, 0
  {
    PlacementsShaped(x, c, k, pos);
    RemStep(x.sets, k);
    ChangeNone(c, pos, 0, Emptied(x));
    assert Choose(x, mode, opts, c, k, rem, pos) == From(x, mode, opts, c, k, rem, pos, pos + |c| - rem);
    assert Placements(x, c, k, pos) == StartsFrom(x, c, k, pos, pos);
    FromVisits(x, mode, opts, c, k, rem, pos, pos, pos + |c| - rem);
  }

  /** `ChooseVisits` for a later run, whose gap cell at `pos` can be empty. */
  lemma {:induction false} ChooseLater(x: Ctx, mode: Mode, opts: nat, c: seq<int>, k: nat, rem: nat, pos: nat)
    requires ChooseArgs(x, c, k, rem, pos) && NoOwn(x, c, pos) && ModeOk(mode, opts)
    requires !Aborted(mode, opts) && 0 < k < |x.sets| && c[pos] <= 0
    ensures Shaped(x, k, Placements(x, c, k, pos))
    ensures Choose(x, mode, opts, c, k, rem, pos).visits == Take(mode, opts, Lines(x, c, k, pos, Placements(x, c, k, pos)))
    decreases |x.sets| - k, 2, 0, 0
  {
    PlacementsShaped(x, c, k, pos);
    RemStep(x.sets, k);
    var c1 := Change(c, pos, pos + 1, 0, Emptied(x));
    var stop := |c| - rem + 1;
    assert Choose(x, mode, opts, c, k, rem, pos).visits == From(x, mode, opts, c1, k, rem, pos + 1, stop).visits;
    assert Placements(x, c, k, pos) == StartsFrom(x, c, k, pos, pos + 1);
    FromVisits(x, mode, opts, c, k, rem, pos, pos + 1, stop);
  }

  /** The loops of `choose_column` visit the placements whose run `k` starts at `s` or later,
      given the gap `[g, s)` already marked. */
  lemma {:induction false} FromVisits(x: Ctx, mode: Mode, opts: nat, c: seq<int>, k: nat, rem: nat, g: nat, s: nat, stop: nat)
    requires FromVisitsArgs(x, mode, opts, c, k, rem, g, s, stop)
    ensures Shaped(x, k, StartsFrom(x, c, k, g, s))
    ensures From(x, mode, opts, Change(c, g, s, 0, Emptied(x)), k, rem, s, stop).visits
      == Take(mode, opts, Lines(x, c, k, g, StartsFrom(x, c, k, g, s)))
    decreases |x.sets| - k, 1, stop - s, 1
  {
    if s < stop && c[s] <= 0 {
      var first := TrySet(x, mode, opts, Change(c, g, s, 0, Emptied(x)), k, rem, s);
      FromNext(x, mode, opts, c, k, rem, g, s, stop);
      FromVisits(x, mode, opts + |first.visits|, c, k, rem, g, s + 1, stop);
      FromJoin(x, mode, opts, c, k, rem, g, s, stop);
    } else {
      FromStops(x, mode, opts, c, k, rem, g, s, stop);
    }
  }

  /** What `FromVisits` needs: run `k` may start anywhere from `s` to `stop`, the gap before it
      can be emptied, and no cell from `g` on is marked yet. */
  predicate FromVisitsArgs(x: Ctx, mode: Mode, opts: nat, c: seq<int>, k: nat, rem: nat, g: nat, s: nat, stop: nat) {
    && k < |x.sets| && rem == Rem(x.sets, k) && g + GapNeed(k) <= s <= stop
    && stop + x.sets[k] + Rem(x.sets, k + 1) == |c|
    && CanEmpty(c, g, s) && NoOwn(x, c, g) && ModeOk(mode, opts)
  }

  /** When the loop goes on after the try at `s`, the try has visited the placements starting
      at `s` and the loop resumes from `s + 1` with what `FromVisits` needs. */
  lemma {:induction false} FromNext(x: Ctx, mode: Mode, opts: nat, c: seq<int>, k: nat, rem: nat, g: nat, s: nat, stop: nat)
    requires FromVisitsArgs(x, mode, opts, c, k, rem, g, s, stop) && s < stop && c[s] <= 0
    ensures Shaped(x, k, At(x, c, k, g, s))
    ensures TrySet(x, mode, opts, Change(c, g, s, 0, Emptied(x)), k, rem, s).visits
      == Take(mode, opts, Lines(x, c, k, g, At(x, c, k, g, s)))
    ensures FromVisitsArgs(x, mode, opts + |TrySet(x, mode, opts, Change(c, g, s, 0, Emptied(x)), k, rem, s).visits|,
                           c, k, rem, g, s + 1, stop)
    decreases |x.sets| - k, 1, stop - s, 0
  {
    TrySetVisits(x, mode, opts, c, k, rem, g, s);
    TakeConcat(mode, opts, Lines(x, c, k, g, At(x, c, k, g, s)), []);
  }

  /** The loop's visits from `s` are the try's at `s` followed by the loop's from `s + 1`, and
      so are the placements. */
  lemma FromJoin(x: Ctx, mode: Mode, opts: nat, c: seq<int>, k: nat, rem: nat, g: nat, s: nat, stop: nat)
    requires FromVisitsArgs(x, mode, opts, c, k, rem, g, s, stop) && s < stop && c[s] <= 0
    requires Shaped(x, k, At(x, c, k, g, s))
    requires TrySet(x, mode, opts, Change(c, g, s, 0, Emptied(x)), k, rem, s).visits
      == Take(mode, opts, Lines(x, c, k, g, At(x, c, k, g, s)))
    requires Shaped(x, k, StartsFrom(x, c, k, g, s + 1))
    requires ModeOk(mode, opts + |TrySet(x, mode, opts, Change(c, g, s, 0, Emptied(x)), k, rem, s).visits|)
    requires From(x, mode, opts + |TrySet(x, mode, opts, Change(c, g, s, 0, Emptied(x)), k, rem, s).visits|,
                  Change(c, g, s + 1, 0, Emptied(x)), k, rem, s + 1, stop).visits
      == Take(mode, opts + |TrySet(x, mode, opts, Change(c, g, s, 0, Emptied(x)), k, rem, s).visits|,
              Lines(x, c, k, g, StartsFrom(x, c, k, g, s + 1)))
    ensures Shaped(x, k, StartsFrom(x, c, k, g, s))
    ensures From(x, mode, opts, Change(c, g, s, 0, Emptied(x)), k, rem, s, stop).visits
      == Take(mode, opts, Lines(x, c, k, g, StartsFrom(x, c, k, g, s)))
  {
    FromUnfoldOn(x, mode, opts, c, k, rem, g, s, stop);
    var a := At(x, c, k, g, s);
    var b := StartsFrom(x, c, k, g, s + 1);
    StartsFromUnfold(x, c, k, g, s);
    LinesConcat(x, c, k, g, a, b);
    var tv := TrySet(x, mode, opts, Change(c, g, s, 0, Emptied(x)), k, rem, s).visits;
    JoinTakes(mode, opts, tv, From(x, mode, opts + |tv|, Change(c, g, s + 1, 0, Emptied(x)), k, rem, s + 1, stop).visits,
              Lines(x, c, k, g, a), Lines(x, c, k, g, b));
  }

  /** A start that leaves room splits the placements into those starting there and the rest. */
  lemma StartsFromUnfold(x: Ctx, c: seq<int>, k: nat, g: nat, s: nat)
    requires k < |x.sets| && s + x.sets[k] <= |c|
    ensures StartsFrom(x, c, k, g, s) == At(x, c, k, g, s) + StartsFrom(x, c, k, g, s + 1)
  {
  }

  /** `TakeConcat` with the two reports named. */
  lemma JoinTakes(mode: Mode, opts: nat, tv: seq<seq<int>>, rv: seq<seq<int>>, la: seq<seq<int>>, lb: seq<seq<int>>)
    requires ModeOk(mode, opts) && tv == Take(mode, opts, la)
    requires ModeOk(mode, opts + |tv|) && rv == Take(mode, opts + |tv|, lb)
    ensures tv + rv == Take(mode, opts, la + lb)
  {
    TakeConcat(mode, opts, la, lb);
  }

  /** `FromVisits` when the try at `s` is the loop's last. */
  lemma {:induction false} FromStops(x: Ctx, mode: Mode, opts: nat, c: seq<int>, k: nat, rem: nat, g: nat, s: nat, stop: nat)
    requires FromVisitsArgs(x, mode, opts, c, k, rem, g, s, stop) && !(s < stop && c[s] <= 0)
    ensures Shaped(x, k, StartsFrom(x, c, k, g, s))
    ensures From(x, mode, opts, Change(c, g, s, 0, Emptied(x)), k, rem, s, stop).visits
      == Take(mode, opts, Lines(x, c, k, g, StartsFrom(x, c, k, g, s)))
    decreases |x.sets| - k, 1, stop - s, 0
  {
    TrySetVisits(x, mode, opts, c, k, rem, g, s);
    FromUnfoldStop(x, mode, opts, c, k, rem, g, s, stop);
    var a := At(x, c, k, g, s);
    var b := StartsFrom(x, c, k, g, s + 1);
    assert StartsFrom(x, c, k, g, s) == a + b;
    if s == stop {
      StartsFromNoRoom(x, c, k, g, s + 1);
    } else {
      Blocked(x, c, k, g, s, s + 1);
    }
    assert a + b == a;
  }

  /** One round of the loops of `choose_column` when it goes on: after the try at `s` has undone
      its marks, the loop resumes from `s + 1` with the gap marked one cell further. */
  lemma FromUnfoldOn(x: Ctx, mode: Mode, opts: nat, c: seq<int>, k: nat, rem: nat, g: nat, s: nat, stop: nat)
    requires g <= s && FromArgs(x, Change(c, g, s, 0, Emptied(x)), k, rem, s, stop) && NoOwn(x, c, g)
    requires s < stop && c[s] <= 0
    ensures From(x, mode, opts, Change(c, g, s, 0, Emptied(x)), k, rem, s, stop).visits
      == TrySet(x, mode, opts, Change(c, g, s, 0, Emptied(x)), k, rem, s).visits
         + From(x, mode, opts + |TrySet(x, mode, opts, Change(c, g, s, 0, Emptied(x)), k, rem, s).visits|,
                Change(c, g, s + 1, 0, Emptied(x)), k, rem, s + 1, stop).visits
  {
    var c1 := Change(c, g, s, 0, Emptied(x));
    TrySetUndo(x, mode, opts, c1, k, rem, s);
    assert c1[s] == c[s];
    ChangeExtend(c, g, s, 0, Emptied(x));
    FromOnceOn(x, mode, opts, c1, k, rem, s, stop, Change(c, g, s + 1, 0, Emptied(x)));
  }

  /** One round of the loops of `choose_column` when it stops: the try at `s` is the last. */
  lemma FromUnfoldStop(x: Ctx, mode: Mode, opts: nat, c: seq<int>, k: nat, rem: nat, g: nat, s: nat, stop: nat)
    requires g <= s && FromArgs(x, Change(c, g, s, 0, Emptied(x)), k, rem, s, stop) && NoOwn(x, c, g)
    requires !(s < stop && c[s] <= 0)
    ensures From(x, mode, opts, Change(c, g, s, 0, Emptied(x)), k, rem, s, stop).visits
      == TrySet(x, mode, opts, Change(c, g, s, 0, Emptied(x)), k, rem, s).visits
  {
    var c1 := Change(c, g, s, 0, Emptied(x));
    TrySetUndo(x, mode, opts, c1, k, rem, s);
    assert s < stop ==> c1[s] == c[s];
    FromOnceStop(x, mode, opts, c1, k, rem, s, stop);
  }

  /** A round of `From` after a try that left the cells as it found them, when the loop goes on. */
  lemma FromOnceOn(x: Ctx, mode: Mode, opts: nat, cells: seq<int>, k: nat, rem: nat, s: nat, stop: nat, next: seq<int>)
    requires FromArgs(x, cells, k, rem, s, stop) && TrySet(x, mode, opts, cells, k, rem, s).cells == cells
    requires s < stop && cells[s] <= 0 && next == Change(cells, s, s + 1, 0, Emptied(x))
    ensures From(x, mode, opts, cells, k, rem, s, stop).visits
      == TrySet(x, mode, opts, cells, k, rem, s).visits
         + From(x, mode, opts + |TrySet(x, mode, opts, cells, k, rem, s).visits|, next, k, rem, s + 1, stop).visits
  {
  }

  /** A round of `From` after a try that left the cells as it found them, when the loop stops. */
  lemma FromOnceStop(x: Ctx, mode: Mode, opts: nat, cells: seq<int>, k: nat, rem: nat, s: nat, stop: nat)
    requires FromArgs(x, cells, k, rem, s, stop) && TrySet(x, mode, opts, cells, k, rem, s).cells == cells
    requires !(s < stop && cells[s] <= 0)
    ensures From(x, mode, opts, cells, k, rem, s, stop).visits == TrySet(x, mode, opts, cells, k, rem, s).visits
  {
  }

  /** `try_column_set` at `s` visits the placements whose run `k` starts at `s`. */
  lemma {:induction false} TrySetVisits(x: Ctx, mode: Mode, opts: nat, c: seq<int>, k: nat, rem: nat, g: nat, s: nat)
    requires k < |x.sets| && rem == Rem(x.sets, k) && g + GapNeed(k) <= s
    requires s + x.sets[k] + Rem(x.sets, k + 1) <= |c|
    requires CanEmpty(c, g, s) && NoOwn(x, c, g) && ModeOk(mode, opts)
    ensures Shaped(x, k, At(x, c, k, g, s))
    ensures TrySet(x, mode, opts, Change(c, g, s, 0, Emptied(x)), k, rem, s).visits
      == Take(mode, opts, Lines(x, c, k, g, At(x, c, k, g, s)))
    decreases |x.sets| - k, 0, 0, 1
  {
    AtShaped(x, c, k, g, s);
    var c1 := Change(c, g, s, 0, Emptied(x));
    var j := ScanFill(c1, s, s + x.sets[k]);
    if j == s + x.sets[k] {
      TrySetPlaced(x, mode, opts, c, k, rem, g, s);
    } else {
      assert c1[j] == c[j];
    }
  }

  /** `TrySetVisits` when every cell of run `k` can be filled: the next run is chosen after it. */
  lemma {:induction false} TrySetPlaced(x: Ctx, mode: Mode, opts: nat, c: seq<int>, k: nat, rem: nat, g: nat, s: nat)
    requires k < |x.sets| && rem == Rem(x.sets, k) && g + GapNeed(k) <= s
    requires s + x.sets[k] + Rem(x.sets, k + 1) <= |c|
    requires CanEmpty(c, g, s) && NoOwn(x, c, g) && ModeOk(mode, opts)
    requires ScanFill(Change(c, g, s, 0, Emptied(x)), s, s + x.sets[k]) == s + x.sets[k]
    ensures Shaped(x, k, At(x, c, k, g, s))
    ensures TrySet(x, mode, opts, Change(c, g, s, 0, Emptied(x)), k, rem, s).visits
      == Take(mode, opts, Lines(x, c, k, g, At(x, c, k, g, s)))
    decreases |x.sets| - k, 0, 0, 0
  {
    AtShaped(x, c, k, g, s);
    var len := x.sets[k];
    var c1 := Change(c, g, s, 0, Emptied(x));
    var m := Change(c1, s, s + len, 0, Filled(x));
    assert CanFill(c, s, s + len) by {
      forall i | s <= i < s + len ensures c[i] >= 0 { assert c1[i] == c[i]; }
    }
    RemStep(x.sets, k);
    TrySetOnce(x, mode, opts, c1, k, rem, s);
    AtOnce(x, c, k, g, s);
    ChooseVisits(x, mode, opts, m, k + 1, rem - len - GapNeed(k), s + len);
    PlacementsLocal(x, m, c, k + 1, s + len);
    PlacementsShaped(x, c, k + 1, s + len);
    LinesPrepend(x, c, k, g, s, Placements(x, c, k + 1, s + len));
  }

  /** A try whose run's cells can all be filled reports what choosing the next run reports. */
  lemma TrySetOnce(x: Ctx, mode: Mode, opts: nat, cells: seq<int>, k: nat, rem: nat, s: nat)
    requires TryArgs(x, cells, k, rem, s) && ScanFill(cells, s, s + x.sets[k]) == s + x.sets[k]
    ensures RemStepped(x, k, rem)
    ensures TrySet(x, mode, opts, cells, k, rem, s).visits
      == Choose(x, mode, opts, Change(cells, s, s + x.sets[k], 0, Filled(x)), k + 1, rem - x.sets[k] - GapNeed(k), s + x.sets[k]).visits
  {
    RemStep(x.sets, k);
  }

  /** The room the runs after `k` need is what run `k` needs less its cells and its gap. */
  predicate RemStepped(x: Ctx, k: nat, rem: nat)
    requires k < |x.sets|
  {
    rem >= x.sets[k] + GapNeed(k) && Rem(x.sets, k + 1) == rem - x.sets[k] - GapNeed(k)
  }

  /** The placements whose run `k` starts at a start that fits are the later runs' placements
      after it. */
  lemma AtOnce(x: Ctx, c: seq<int>, k: nat, g: nat, s: nat)
    requires k < |x.sets| && CanEmpty(c, g, s) && CanFill(c, s, s + x.sets[k])
    ensures At(x, c, k, g, s) == Prepend(s, Placements(x, c, k + 1, s + x.sets[k]))
  {
  }

  /** A counting call adds one option per placement, and gives up at the cap. */
  lemma CountsPlacements(x: Ctx, cap: nat, opts: nat, c: seq<int>)
    requires Rem(x.sets, 0) <= |c| && NoOwn(x, c, 0) && opts <= cap
    ensures |Choose(x, Count(cap), opts, c, 0, Rem(x.sets, 0), 0).visits| == Min(|Placements(x, c, 0, 0)|, cap - opts)
  {
    ChooseVisits(x, Count(cap), opts, c, 0, Rem(x.sets, 0), 0);
  }

  /** A running call reaches the end of the line exactly at the placements of the grammar, each
      painted on the line. */
  lemma RunsPlacements(x: Ctx, c: seq<int>, v: seq<int>)
    requires Rem(x.sets, 0) <= |c| && NoOwn(x, c, 0)
    ensures v in Choose(x, Run, 0, c, 0, Rem(x.sets, 0), 0).visits
      <==> exists ss :: Fits(x, c, 0, 0, ss) && |ss| == |x.sets| && v == Paint(x, c, 0, 0, ss)
  {
    ChooseVisits(x, Run, 0, c, 0, Rem(x.sets, 0), 0);
    var pss := Placements(x, c, 0, 0);
    if v in Choose(x, Run, 0, c, 0, Rem(x.sets, 0), 0).visits {
      var i :| 0 <= i < |pss| && v == Lines(x, c, 0, 0, pss)[i];
      PlacementsFit(x, c, 0, 0, pss[i]);
    }
    if exists ss :: Fits(x, c, 0, 0, ss) && |ss| == |x.sets| && v == Paint(x, c, 0, 0, ss) {
      var ss :| Fits(x, c, 0, 0, ss) && |ss| == |x.sets| && v == Paint(x, c, 0, 0, ss);
      PlacementsFit(x, c, 0, 0, ss);
      var i :| 0 <= i < |pss| && pss[i] == ss;
      assert Lines(x, c, 0, 0, pss)[i] == v;
    }
  }
}
