/** The depth-stamped memo tables of the coloured solver's sweep (src/nonogram.c `empty_cache`,
    `color_cache`, `cross_cache`). An entry is `CACHE_EMPTY` (not known), a positive count, the
    infeasibility marker `-2d-1` of the search depth `d` that found no placement, or the option
    exclusion marker `-2d-2` that the branching step writes. The two marker families differ in
    parity, so clearing one depth's infeasibility markers never touches an exclusion.
    The cross cache stores the number of matching crossing runs, but its probe
    (src/nonogram.c:1168-1169) returns only a 0/1 match flag, `entry > CACHE_EMPTY`, not the
    count `Lookup` gives for the other two tables. */
module Caches {

  const CACHE_EMPTY: int := 0

  /** The infeasibility marker of depth `d` (src/nonogram.c:909, 951, 1179). */
  function Infeasible(depth: nat): (m: int)
    ensures m < CACHE_EMPTY && m % 2 == 1
  {
    -2 * (depth as int) - 1
  }

  /** The option exclusion marker of depth `d` (src/nonogram.c:717, 721, 1222, 1227). */
  function Excluded(depth: nat): (m: int)
    ensures m < CACHE_EMPTY && m % 2 == 0
  {
    -2 * (depth as int) - 2
  }

  /** Markers identify their depth and kind: no infeasibility marker equals an exclusion marker,
      and two markers of one kind are equal only for the same depth. */
  lemma MarkersDistinct(d: nat, e: nat)
    ensures Infeasible(d) != Excluded(e)
    ensures Infeasible(d) == Infeasible(e) <==> d == e
    ensures Excluded(d) == Excluded(e) <==> d == e
  {
  }

  /** What a cache probe tells the sweep. */
  datatype Probe = Miss | Hit(count: nat)

  /** A probe (src/nonogram.c:841-848, 916-923): `CACHE_EMPTY` is a miss, a positive entry is
      returned as the count, any negative marker reads as no placement. */
  function Lookup(entry: int): (p: Probe)
    ensures p.Miss? <==> entry == CACHE_EMPTY
    ensures p.Hit? ==> (p.count > 0 <==> entry > CACHE_EMPTY)
    ensures p.Hit? && entry > CACHE_EMPTY ==> p.count == entry
  {
    if entry == CACHE_EMPTY then Miss
    else if entry > CACHE_EMPTY then Hit(entry)
    else Hit(0)
  }

  /** What a sweep at depth `d` stores after computing `count` (src/nonogram.c:899-910,
      940-952): the count when positive, else the depth's infeasibility marker. */
  function Record(count: nat, depth: nat): (entry: int)
    ensures entry != CACHE_EMPTY
    ensures entry > CACHE_EMPTY <==> count > 0
  {
    if count > 0 then count else Infeasible(depth)
  }

  /** A stored result is read back unchanged, at any depth: the cache never changes an answer. */
  lemma LookupRecord(count: nat, depth: nat)
    ensures Lookup(Record(count, depth)) == Hit(count)
  {
  }

  /** The table after `clear_positive_*` over the index range `[lo, hi)`. */
  function PositiveCleared(c: seq<int>, lo: int, hi: int): (r: seq<int>)
    ensures |r| == |c|
  {
    seq(|c|, i requires 0 <= i < |c| => if lo <= i < hi && c[i] > CACHE_EMPTY then CACHE_EMPTY else c[i])
  }

  /** The table after `clear_negative_*(d)` over the index range `[lo, hi)`. */
  function NegativeCleared(c: seq<int>, lo: int, hi: int, depth: nat): (r: seq<int>)
    ensures |r| == |c|
  {
    seq(|c|, i requires 0 <= i < |c| => if lo <= i < hi && c[i] == Infeasible(depth) then CACHE_EMPTY else c[i])
  }

  /** `clear_positive_empty_cache` / `_color_cache` / `_cross_cache` (src/nonogram.c:804-829):
      the range is already offset by the table's base; the empty table is cleared whole. Counts
      in the range are forgotten; every marker, and everything outside the range, stays. */
  method ClearPositive(c: seq<int>, lo: int, hi: int) returns (r: seq<int>)
    requires 0 <= lo && hi <= |c|
    ensures r == PositiveCleared(c, lo, hi)
    ensures forall i :: lo <= i < hi ==> r[i] <= CACHE_EMPTY
    ensures forall i :: 0 <= i < |c| && c[i] <= CACHE_EMPTY ==> r[i] == c[i]
  {
    r := c;
    var i := lo;
    while i < hi
      invariant i == lo || lo <= i <= hi
      invariant |r| == |c|
      invariant forall j :: 0 <= j < |c| ==> r[j] == if lo <= j < i && c[j] > CACHE_EMPTY then CACHE_EMPTY else c[j]
    {
      if r[i] > CACHE_EMPTY {
        r := r[i := CACHE_EMPTY];
      }
      i := i + 1;
    }
    assert forall j :: 0 <= j < |c| ==> r[j] == PositiveCleared(c, lo, hi)[j];
  }

  /** `clear_negative_empty_cache` / `_color_cache` / `_cross_cache` (src/nonogram.c:1258-1283):
      only the infeasibility markers of this one depth are forgotten; counts, other depths'
      markers and every exclusion marker stay. */
  method ClearNegative(c: seq<int>, lo: int, hi: int, depth: nat) returns (r: seq<int>)
    requires 0 <= lo && hi <= |c|
    ensures r == NegativeCleared(c, lo, hi, depth)
    ensures forall i :: lo <= i < hi ==> r[i] != Infeasible(depth)
    ensures forall i :: 0 <= i < |c| && c[i] != Infeasible(depth) ==> r[i] == c[i]
  {
    r := c;
    var i := lo;
    while i < hi
      invariant i == lo || lo <= i <= hi
      invariant |r| == |c|
      invariant forall j :: 0 <= j < |c| ==> r[j] == if lo <= j < i && c[j] == Infeasible(depth) then CACHE_EMPTY else c[j]
    {
      if r[i] == Infeasible(depth) {
        r := r[i := CACHE_EMPTY];
      }
      i := i + 1;
    }
    assert forall j :: 0 <= j < |c| ==> r[j] == NegativeCleared(c, lo, hi, depth)[j];
  }

  /** What one search frame does to one table, in order. */
  datatype Event =
    | Store(i: nat, count: nat)  // a sweep or crossing match stores its result after a miss
    | Forget(lo: int, hi: int)   // a `clear_positive_*` call before a line is swept
    | Exclude(i: nat, e: nat)    // an option excluded with the exclusion marker of depth `e`
    | Include(i: nat)            // an option given back (`CACHE_EMPTY`)
    | Child(after: seq<int>)     // a nested frame, given by the table it leaves behind

  /** The net effect a finished frame may have: markers it found are untouched, and a count or
      `CACHE_EMPTY` stays a count or `CACHE_EMPTY`. */
  predicate NetEffect(before: seq<int>, after: seq<int>) {
    |after| == |before| &&
    forall i :: 0 <= i < |before| ==>
      (before[i] < CACHE_EMPTY ==> after[i] == before[i]) &&
      (before[i] >= CACHE_EMPTY ==> after[i] >= CACHE_EMPTY)
  }

  /** An exclusion marker the frame at `depth` writes: its own (the branch, src/nonogram.c:717)
      or the next depth's (`evaluate_set` is handed `depth+1`, src/nonogram.c:1222). */
  predicate FrameExclusion(m: int, depth: nat) {
    m == Excluded(depth) || m == Excluded(depth + 1)
  }

  /** The event is one the frame at `depth` can perform on table `c`, which held `c0` when the
      frame began: stores follow a miss, exclusions are written over counts (or over what a
      child left there) and given back only where this frame wrote them, a child frame has the
      net effect of a finished frame, and clearing ranges lie inside the table. */
  predicate Legal(c0: seq<int>, c: seq<int>, ev: Event, depth: nat) {
    |c| == |c0| && InTable(c, ev) &&
    match ev
    case Store(i, _) => c[i] == CACHE_EMPTY
    case Forget(_, _) => true
    case Exclude(i, e) => c[i] >= CACHE_EMPTY && (e == depth || e == depth + 1)
    case Include(i) => c0[i] >= CACHE_EMPTY && FrameExclusion(c[i], depth)
    case Child(after) => NetEffect(c, after)
  }

  /** The event addresses entries of the table. */
  predicate InTable(c: seq<int>, ev: Event) {
    match ev
    case Store(i, _) => i < |c|
    case Forget(lo, hi) => 0 <= lo && hi <= |c|
    case Exclude(i, _) => i < |c|
    case Include(i) => i < |c|
    case Child(after) => |after| == |c|
  }

  function Apply(c: seq<int>, ev: Event, depth: nat): (r: seq<int>)
    requires InTable(c, ev)
    ensures |r| == |c|
  {
    match ev
    case Store(i, count) => c[i := Record(count, depth)]
    case Forget(lo, hi) => PositiveCleared(c, lo, hi)
    case Exclude(i, e) => c[i := Excluded(e)]
    case Include(i) => c[i := CACHE_EMPTY]
    case Child(after) => after
  }

  /** The table after the events, and whether every one of them was legal; the run stops at
      the first illegal event. */
  function Run(c0: seq<int>, c: seq<int>, evs: seq<Event>, depth: nat): (r: (seq<int>, bool))
    requires |c| == |c0|
    ensures |r.0| == |c0|
    decreases |evs|
  {
    if |evs| == 0 then (c, true)
    else if Legal(c0, c, evs[0], depth) then Run(c0, Apply(c, evs[0], depth), evs[1..], depth)
    else (c, false)
  }

  /** Every store among the events addresses the range `[lo, hi)`: the frame sweeps and
      matches only inside the colour bounds it started from. */
  predicate StoresIn(evs: seq<Event>, lo: int, hi: int) {
    forall k :: 0 <= k < |evs| && evs[k].Store? ==> lo <= evs[k].i < hi
  }

  /** While a frame runs, every entry is what it was at entry (markers the frame found), or a
      count or `CACHE_EMPTY`, or a marker the frame itself wrote; its infeasibility markers lie
      in the range `[lo, hi)` it stores into. */
  predicate Pending(c0: seq<int>, c: seq<int>, depth: nat, lo: int, hi: int) {
    |c| == |c0| &&
    forall i :: 0 <= i < |c0| ==>
      (c0[i] < CACHE_EMPTY ==> c[i] == c0[i]) &&
      (c0[i] >= CACHE_EMPTY ==> c[i] >= CACHE_EMPTY || (c[i] == Infeasible(depth) && lo <= i < hi) || FrameExclusion(c[i], depth))
  }

  lemma {:induction false} RunPending(c0: seq<int>, c: seq<int>, evs: seq<Event>, depth: nat, lo: int, hi: int)
    requires Pending(c0, c, depth, lo, hi) && StoresIn(evs, lo, hi)
    ensures Pending(c0, Run(c0, c, evs, depth).0, depth, lo, hi)
    decreases |evs|
  {
    if |evs| > 0 && Legal(c0, c, evs[0], depth) {
      var ev := evs[0];
      var c1 := Apply(c, ev, depth);
      assert Pending(c0, c1, depth, lo, hi) by {
        forall i | 0 <= i < |c0|
          ensures c0[i] < CACHE_EMPTY ==> c1[i] == c0[i]
          ensures c0[i] >= CACHE_EMPTY ==> c1[i] >= CACHE_EMPTY || (c1[i] == Infeasible(depth) && lo <= i < hi) || FrameExclusion(c1[i], depth)
        {
          if ev.Child? {
            assert c0[i] < CACHE_EMPTY ==> c[i] < CACHE_EMPTY;
          }
        }
      }
      assert StoresIn(evs[1..], lo, hi) by {
        forall k | 0 <= k < |evs[1..]| && evs[1..][k].Store? ensures lo <= evs[1..][k].i < hi {
          assert evs[1..][k] == evs[k + 1];
        }
      }
      RunPending(c0, c1, evs[1..], depth, lo, hi);
    }
  }

  /** The frame undo for one table (src/nonogram.c:737-759 with 719-729 and 1258-1283): a frame
      at depth `d` that starts from a table without its own infeasibility markers, performs only
      legal events, stores only inside `[lo, hi)`, gives back every option it excluded, and ends
      with `clear_negative_*(d)` over `[lo, hi)`, leaves the table with exactly the net effect of
      a finished frame. For the empty cache the range is the whole table; for the colour and
      cross caches it is the colour bounds the frame saved at depth `d`
      (`color_bounds_min[d+BOUNDS_BCK]` on), already offset by the table's base. Every marker
      present at entry survives, whatever its depth and kind; only counts may have changed. */
  lemma {:induction false} FrameUndo(c0: seq<int>, evs: seq<Event>, depth: nat, lo: int, hi: int)
    requires 0 <= lo && hi <= |c0|
    requires forall i :: 0 <= i < |c0| ==> c0[i] != Infeasible(depth)
    requires StoresIn(evs, lo, hi)
    requires Run(c0, c0, evs, depth).1
    requires forall i :: 0 <= i < |c0| && c0[i] >= CACHE_EMPTY ==> !FrameExclusion(Run(c0, c0, evs, depth).0[i], depth)
    ensures NetEffect(c0, NegativeCleared(Run(c0, c0, evs, depth).0, lo, hi, depth))
  {
    RunPending(c0, c0, evs, depth, lo, hi);
  }
}
