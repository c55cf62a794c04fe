/** Run-length structure of a line, shared by the two encoders: the bitmap encoder reports the
    blocks of filled cells of each line (src/convert_bitmap.c:49-94), the grid encoder the blocks
    of each non-zero colour (src/nonogram_org_conv_functions.js:34-53). */
module RunLength {

  /** `len` cells holding `value`, from cell `start` on. */
  datatype Block<T> = Block(start: nat, len: nat, value: T)

  function End<T>(b: Block<T>): nat {
    b.start + b.len
  }

  /** The blocks of `s`, built as a streaming encoder does: each element extends the last block
      when it repeats that block's value, and opens a new block otherwise. */
  function Blocks<T(==)>(s: seq<T>): seq<Block<T>>
    decreases |s|
  {
    if |s| == 0 then []
    else
      var p := Blocks(s[..|s| - 1]);
      var c := s[|s| - 1];
      if |p| > 0 && p[|p| - 1].value == c
      then p[..|p| - 1] + [p[|p| - 1].(len := p[|p| - 1].len + 1)]
      else p + [Block(|s| - 1, 1, c)]
  }

  /** Block `i` is non-empty, lies inside `s` and every cell of it holds its value. */
  predicate Holds<T(==)>(bs: seq<Block<T>>, s: seq<T>, i: nat)
    requires i < |bs|
  {
    bs[i].len >= 1 && End(bs[i]) <= |s| && forall j :: bs[i].start <= j < End(bs[i]) ==> s[j] == bs[i].value
  }

  /** Block `i` starts where block `i - 1` ends and holds a different value. */
  predicate Follows<T(==)>(bs: seq<Block<T>>, i: nat)
    requires 0 < i < |bs|
  {
    bs[i].start == End(bs[i - 1]) && bs[i].value != bs[i - 1].value
  }

  /** `bs` is the run-length encoding of `s`: its blocks tile `s` from the first cell to the last,
      each holds one value, and two neighbouring blocks hold different values, so every block
      is maximal. */
  predicate Encodes<T(==)>(bs: seq<Block<T>>, s: seq<T>) {
    && (forall i :: 0 <= i < |bs| ==> Holds(bs, s, i))
    && (forall i :: 0 < i < |bs| ==> Follows(bs, i))
    && (|bs| == 0 <==> |s| == 0)
    && (|bs| > 0 ==> bs[0].start == 0 && End(bs[|bs| - 1]) == |s|)
  }

  /** The streaming encoder produces the run-length encoding. */
  lemma {:induction false} BlocksEncode<T>(s: seq<T>)
    ensures Encodes(Blocks(s), s)
    decreases |s|
  {
    if |s| > 0 {
      var q := s[..|s| - 1];
      var p := Blocks(q);
      var c := s[|s| - 1];
      BlocksEncode(q);
      var bs := Blocks(s);
      if |p| > 0 && p[|p| - 1].value == c {
        var n := |p| - 1;
        assert bs == p[..n] + [p[n].(len := p[n].len + 1)];
        forall i | 0 <= i < |bs| ensures Holds(bs, s, i) {
          assert Holds(p, q, i);
          if i == n {
            forall j | bs[i].start <= j < End(bs[i]) ensures s[j] == bs[i].value {
              if j < |q| { assert q[j] == s[j]; }
            }
          } else {
            forall j | bs[i].start <= j < End(bs[i]) ensures s[j] == bs[i].value {
              assert q[j] == s[j];
            }
          }
        }
        forall i | 0 < i < |bs| ensures Follows(bs, i) {
          assert Follows(p, i);
        }
      } else {
        assert bs == p + [Block(|q|, 1, c)];
        forall i | 0 <= i < |bs| ensures Holds(bs, s, i) {
          if i < |p| {
            assert Holds(p, q, i);
            forall j | bs[i].start <= j < End(bs[i]) ensures s[j] == bs[i].value {
              assert q[j] == s[j];
            }
          }
        }
        forall i | 0 < i < |bs| ensures Follows(bs, i) {
          if i < |p| { assert Follows(p, i); }
        }
      }
    }
  }

  /** A run-length encoding is unique: two encodings of the same line are equal. */
  lemma {:induction false} EncodingUnique<T>(bs: seq<Block<T>>, cs: seq<Block<T>>, s: seq<T>)
    requires Encodes(bs, s) && Encodes(cs, s)
    ensures bs == cs
  {
    if |bs| > 0 {
      SameBlocks(bs, cs, s, 0);
    }
  }

  /** Two encodings of `s` agree from block `i` on, given that block `i` starts at the same cell. */
  lemma {:induction false} SameBlocks<T>(bs: seq<Block<T>>, cs: seq<Block<T>>, s: seq<T>, i: nat)
    requires Encodes(bs, s) && Encodes(cs, s)
    requires i < |bs| && i < |cs| && bs[i].start == cs[i].start
    requires forall k :: 0 <= k < i ==> bs[k] == cs[k]
    ensures bs == cs
    decreases |s| - bs[i].start
  {
    assert Holds(bs, s, i) && Holds(cs, s, i);
    assert bs[i].value == cs[i].value by {
      assert s[bs[i].start] == bs[i].value;
    }
    EndsAtChange(bs, s, i);
    EndsAtChange(cs, s, i);
    assert bs[i].len == cs[i].len;
    LastBlock(bs, s, i);
    LastBlock(cs, s, i);
    if i + 1 < |bs| && i + 1 < |cs| {
      assert Follows(bs, i + 1) && Follows(cs, i + 1);
      SameBlocks(bs, cs, s, i + 1);
    }
  }

  /** A block is the last one exactly when it reaches the end of the line. */
  lemma LastBlock<T>(bs: seq<Block<T>>, s: seq<T>, i: nat)
    requires Encodes(bs, s) && i < |bs|
    ensures End(bs[i]) == |s| <==> i + 1 == |bs|
  {
    if i + 1 < |bs| {
      assert Follows(bs, i + 1) && Holds(bs, s, i + 1);
    }
  }

  /** A block that is not the last one is followed by a cell of another value. */
  lemma EndsAtChange<T>(bs: seq<Block<T>>, s: seq<T>, i: nat)
    requires Encodes(bs, s) && i < |bs|
    ensures End(bs[i]) < |s| ==> i + 1 < |bs| && s[End(bs[i])] != bs[i].value
  {
    LastBlock(bs, s, i);
    if i + 1 < |bs| {
      assert Follows(bs, i + 1) && Holds(bs, s, i + 1);
    }
  }

  /** One step of the streaming encoder. */
  lemma BlocksSnoc<T>(s: seq<T>, c: T)
    ensures var p := Blocks(s); |p| > 0 && p[|p| - 1].value == c ==>
      Blocks(s + [c]) == p[..|p| - 1] + [p[|p| - 1].(len := p[|p| - 1].len + 1)]
    ensures var p := Blocks(s); !(|p| > 0 && p[|p| - 1].value == c) ==>
      Blocks(s + [c]) == p + [Block(|s|, 1, c)]
  {
    assert (s + [c])[..|s|] == s;
  }

  /** `k` copies of `c`. */
  function Repeat<T>(c: T, k: nat): (r: seq<T>)
    ensures |r| == k && forall j :: 0 <= j < k ==> r[j] == c
  {
    if k == 0 then [] else Repeat(c, k - 1) + [c]
  }

  /** Appending a maximal run of equal values to a line appends one block to its encoding: this
      is how an encoder that scans a whole run at a time advances. */
  lemma {:induction false} BlocksAppendRun<T>(p: seq<T>, c: T, k: nat)
    requires k >= 1 && (|p| == 0 || p[|p| - 1] != c)
    ensures Blocks(p + Repeat(c, k)) == Blocks(p) + [Block(|p|, k, c)]
  {
    var r := Repeat(c, k - 1);
    assert p + Repeat(c, k) == (p + r) + [c];
    if k == 1 {
      assert p + r == p;
      OpenRun(p, c);
    } else {
      BlocksAppendRun(p, c, k - 1);
      ExtendRun(p + r, Blocks(p), Block(|p|, k - 1, c), c);
    }
  }

  /** A value unlike the last one opens a block. */
  lemma OpenRun<T>(p: seq<T>, c: T)
    requires |p| == 0 || p[|p| - 1] != c
    ensures Blocks(p + [c]) == Blocks(p) + [Block(|p|, 1, c)]
  {
    BlocksSnoc(p, c);
    if |p| > 0 {
      BlocksEncode(p);
      var b := Blocks(p);
      LastBlock(b, p, |b| - 1);
      assert Holds(b, p, |b| - 1);
    }
  }

  /** A value equal to the last block's extends that block. */
  lemma ExtendRun<T>(q: seq<T>, front: seq<Block<T>>, last: Block<T>, c: T)
    requires Blocks(q) == front + [last] && last.value == c
    ensures Blocks(q + [c]) == front + [last.(len := last.len + 1)]
  {
    BlocksSnoc(q, c);
    var b := Blocks(q);
    assert b[..|b| - 1] == front;
  }

  /** A slice of equal values is a prefix followed by a run. */
  lemma {:induction false} RunSlice<T>(s: seq<T>, v: nat, e: nat)
    requires v <= e <= |s| && forall j :: v <= j < e ==> s[j] == s[v]
    ensures v < e ==> s[..e] == s[..v] + Repeat(s[v], e - v)
    decreases e - v
  {
    if v + 1 < e {
      RunSlice(s, v, e - 1);
      assert s[..e] == s[..e - 1] + [s[e - 1]];
    }
  }
}
