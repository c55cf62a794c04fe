/** The circular doubly-linked rings of both solvers (clues, runs, and the column and row rings
    of cells), modelled by index: element `i` links to `next[i]` and `prev[i]`. Covering unlinks
    an element and keeps its own links; uncovering relinks it through them
    (src/nonogram.c:1186-1201, 1241-1256; nonogram.c:210-219). */
module Rings {

  datatype Ring = Ring(next: seq<nat>, prev: seq<nat>)

  /** Every link points at an element of the table. */
  predicate Wf(r: Ring) {
    |r.next| == |r.prev| &&
    (forall i :: 0 <= i < |r.next| ==> r.next[i] < |r.next|) &&
    (forall i :: 0 <= i < |r.prev| ==> r.prev[i] < |r.prev|)
  }

  /** The elements of `members` are linked among themselves: each one's neighbours are members
      and point back at it. */
  predicate Linked(r: Ring, members: set<nat>) {
    Wf(r) && forall i :: i in members ==> LinkedAt(r, members, i)
  }

  /** Member `i`'s neighbours are members and point back at it. */
  predicate LinkedAt(r: Ring, members: set<nat>, i: nat)
    requires Wf(r)
  {
    && i < |r.next|
    && r.next[i] in members && r.prev[i] in members
    && r.prev[r.next[i]] == i && r.next[r.prev[i]] == i
  }

  /** `cover_*`: `x->last->next = x->next; x->next->last = x->last`. */
  function Cover(r: Ring, x: nat): (c: Ring)
    requires Wf(r) && x < |r.next|
    ensures Wf(c) && |c.next| == |r.next|
  {
    var r1 := r.(next := r.next[r.prev[x] := r.next[x]]);
    r1.(prev := r1.prev[r1.next[x] := r1.prev[x]])
  }

  /** `uncover_*`: `x->next->last = x; x->last->next = x`. */
  function Uncover(r: Ring, x: nat): (u: Ring)
    requires Wf(r) && x < |r.next|
    ensures Wf(u) && |u.next| == |r.next|
  {
    var r1 := r.(prev := r.prev[r.next[x] := x]);
    r1.(next := r1.next[r1.prev[x] := x])
  }

  /** Covering a member unlinks it: the other members stay linked among themselves, none of
      them links to it any more, and it keeps its own two links. */
  lemma CoverUnlinks(r: Ring, members: set<nat>, x: nat)
    requires Linked(r, members) && x in members
    ensures Linked(Cover(r, x), members - {x})
    ensures Cover(r, x).next[x] == r.next[x] && Cover(r, x).prev[x] == r.prev[x]
    ensures forall i :: i in members - {x} ==> Cover(r, x).next[i] != x && Cover(r, x).prev[i] != x
  {
    var p, n := r.prev[x], r.next[x];
    var c := Cover(r, x);
    if p == x {
      assert n == x;
    }
    assert c.next == r.next[p := n];
    assert c.prev == r.prev[n := p];
    var rest := members - {x};
    forall i | i in rest
      ensures LinkedAt(c, rest, i)
    {
      assert LinkedAt(r, members, i);
      if i == p {
        assert n != x;
      } else {
        assert r.next[i] != x;
        assert r.next[i] != n;
      }
      if i == n {
        assert p != x;
      } else {
        assert r.prev[i] != x;
        assert r.prev[i] != p;
      }
    }
  }

  /** Uncovering what was just covered restores the ring exactly. */
  lemma UncoverCover(r: Ring, members: set<nat>, x: nat)
    requires Linked(r, members) && x in members
    ensures Uncover(Cover(r, x), x) == r
  {
    var p, n := r.prev[x], r.next[x];
    var c := Cover(r, x);
    if p == x {
      assert n == x;
    }
    assert c.next == r.next[p := n];
    assert c.prev == r.prev[n := p];
    var u := Uncover(c, x);
    assert u.prev == c.prev[n := x];
    assert u.prev == r.prev;
    assert u.next == r.next;
  }

  /** Covering `xs` in order, as the search pushes them on its locked stacks. */
  function CoverAll(r: Ring, xs: seq<nat>): (c: Ring)
    requires Wf(r) && forall i :: 0 <= i < |xs| ==> xs[i] < |r.next|
    ensures Wf(c) && |c.next| == |r.next|
  {
    if |xs| == 0 then r else Cover(CoverAll(r, xs[..|xs| - 1]), xs[|xs| - 1])
  }

  /** Uncovering `xs` last-in first-out, as the unwinding loops pop the locked stacks. */
  function UncoverAll(r: Ring, xs: seq<nat>): (u: Ring)
    requires Wf(r) && forall i :: 0 <= i < |xs| ==> xs[i] < |r.next|
    ensures Wf(u) && |u.next| == |r.next|
    decreases |xs|
  {
    if |xs| == 0 then r else UncoverAll(Uncover(r, xs[|xs| - 1]), xs[..|xs| - 1])
  }

  /** Distinct members. */
  predicate DistinctMembers(xs: seq<nat>, members: set<nat>) {
    (forall i :: 0 <= i < |xs| ==> xs[i] in members) &&
    (forall i, j :: 0 <= i < j < |xs| ==> xs[i] != xs[j])
  }

  function ToSet(xs: seq<nat>): set<nat> {
    set i | 0 <= i < |xs| :: xs[i]
  }

  /** The elements of a sequence of distinct values are those of its prefix plus its last one,
      which is not among them. */
  lemma ToSetSnoc(xs: seq<nat>)
    requires |xs| > 0 && forall i, j :: 0 <= i < j < |xs| ==> xs[i] != xs[j]
    ensures ToSet(xs) == ToSet(xs[..|xs| - 1]) + {xs[|xs| - 1]}
    ensures xs[|xs| - 1] !in ToSet(xs[..|xs| - 1])
  {
    var init := xs[..|xs| - 1];
    forall v | v in ToSet(xs) ensures v in ToSet(init) + {xs[|xs| - 1]} {
      var i :| 0 <= i < |xs| && xs[i] == v;
      if i < |xs| - 1 { assert init[i] == v; }
    }
    forall v | v in ToSet(init) ensures v in ToSet(xs) && v != xs[|xs| - 1] {
      var i :| 0 <= i < |init| && init[i] == v;
      assert xs[i] == v;
    }
  }

  /** After covering distinct members, the rest are still linked among themselves. */
  lemma {:induction false} CoverAllUnlinks(r: Ring, members: set<nat>, xs: seq<nat>)
    requires Linked(r, members) && DistinctMembers(xs, members)
    ensures Linked(CoverAll(r, xs), members - ToSet(xs))
  {
    if |xs| > 0 {
      var init, last := xs[..|xs| - 1], xs[|xs| - 1];
      DistinctSnoc(xs, members);
      CoverAllUnlinks(r, members, init);
      CoverStep(CoverAll(r, init), members - ToSet(init), last, members - ToSet(xs));
      assert CoverAll(r, xs) == Cover(CoverAll(r, init), last);
    } else {
      assert ToSet(xs) == {};
    }
  }

  /** Dropping the last of distinct members leaves distinct members, and the last one is among
      those still linked after the others are covered. */
  lemma DistinctSnoc(xs: seq<nat>, members: set<nat>)
    requires |xs| > 0 && DistinctMembers(xs, members)
    ensures DistinctMembers(xs[..|xs| - 1], members)
    ensures xs[|xs| - 1] in members - ToSet(xs[..|xs| - 1])
    ensures (members - ToSet(xs[..|xs| - 1])) - {xs[|xs| - 1]} == members - ToSet(xs)
  {
    ToSetSnoc(xs);
  }

  /** `CoverUnlinks` with the remaining members named. */
  lemma CoverStep(c: Ring, rest: set<nat>, last: nat, left: set<nat>)
    requires Linked(c, rest) && last in rest && left == rest - {last}
    ensures Linked(Cover(c, last), left)
  {
    CoverUnlinks(c, rest, last);
  }

  /** Last-in first-out unwinding is an exact undo: covering distinct members and then
      uncovering them in reverse order gives back the ring as it was. */
  lemma {:induction false} UncoverAllCoverAll(r: Ring, members: set<nat>, xs: seq<nat>)
    requires Linked(r, members) && DistinctMembers(xs, members)
    ensures UncoverAll(CoverAll(r, xs), xs) == r
  {
    if |xs| > 0 {
      var init := xs[..|xs| - 1];
      var last := xs[|xs| - 1];
      DistinctSnoc(xs, members);
      CoverAllUnlinks(r, members, init);
      UncoverCover(CoverAll(r, init), members - ToSet(init), last);
      UncoverAllCoverAll(r, members, init);
    }
  }
}
