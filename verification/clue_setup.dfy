/** Clue setup of the coloured solver (src/nonogram.c `read_clue`): from the tokens of one
    clue to its runs, with the derived `empty_before` flags, minimum length and relaxation. */
module ClueSetup {
  import opened Results
  import opened Seqs

  /** Cell colour characters used by the coloured solver (src/nonogram.c:12-15). */
  const COLOR_UNKNOWN: char := '?'
  const COLOR_BLACK: char := '*'
  const COLOR_EMPTY: char := ' '
  const COLOR_SEVERAL: char := '!'

  /** One `<length>[-<colour>]` token of a clue, already read. `color` matters only in coloured
      mode and only when `len > 0`: that is the only case where the source reads a colour. */
  datatype Token = Token(len: int, color: char)

  /** A run as read: its length (at least 1) and colour. */
  datatype RunSpec = RunSpec(len: nat, color: char)

  /** A run with its derived flag: `emptyBefore` when a mandatory empty cell must precede it. */
  datatype Run = Run(len: nat, color: char, emptyBefore: bool)

  /** A set-up clue: its runs and its slack (`relaxation`). */
  datatype Clue = Clue(runs: seq<Run>, relaxation: int)

  datatype SetupError = InvalidSetLength | InvalidSetColor | IncompatibleClue

  predicate IsAlnum(c: char) {
    ('0' <= c <= '9') || ('a' <= c <= 'z') || ('A' <= c <= 'Z')
  }

  /** A colour a run may carry: an alphanumeric symbol, or `'*'` in uncoloured mode. */
  predicate RunColor(c: char) {
    IsAlnum(c) || c == COLOR_BLACK
  }

  /** The token stream is acceptable: no negative length, and in coloured mode an
      alphanumeric colour for every run. */
  predicate ValidTokens(tokens: seq<Token>, colored: bool) {
    forall i :: 0 <= i < |tokens| ==>
      tokens[i].len >= 0 && (colored && tokens[i].len > 0 ==> IsAlnum(tokens[i].color))
  }

  /** Sum of the positive token lengths. */
  function PositiveTotal(tokens: seq<Token>): int {
    if |tokens| == 0 then 0
    else (if tokens[0].len > 0 then tokens[0].len else 0) + PositiveTotal(tokens[1..])
  }

  function CountPositive(tokens: seq<Token>): nat {
    if |tokens| == 0 then 0
    else (if tokens[0].len > 0 then 1 else 0) + CountPositive(tokens[1..])
  }

  function SpecTotal(specs: seq<RunSpec>): int {
    if |specs| == 0 then 0 else specs[0].len + SpecTotal(specs[1..])
  }

  /** The run list of a clue (src/nonogram.c:321-367): tokens are read in order; a negative
      length is rejected, in coloured mode a run's colour must be alphanumeric, only tokens with
      `len > 0` create runs, and in uncoloured mode every run gets colour `'*'`. */
  function BuildRuns(tokens: seq<Token>, colored: bool): (r: Result<seq<RunSpec>, SetupError>)
    ensures r.Ok? <==> ValidTokens(tokens, colored)
    ensures r.Ok? ==> |r.value| == CountPositive(tokens)
    ensures r.Ok? ==> SpecTotal(r.value) == PositiveTotal(tokens)
    ensures r.Ok? ==> forall i :: 0 <= i < |r.value| ==> r.value[i].len > 0 && RunColor(r.value[i].color)
    ensures r.Ok? && !colored ==> forall i :: 0 <= i < |r.value| ==> r.value[i].color == COLOR_BLACK
    ensures r.Err? && tokens[0].len < 0 ==> r.error == InvalidSetLength
  {
    if |tokens| == 0 then Ok([])
    else
      var t := tokens[0];
      if t.len < 0 then Err(InvalidSetLength)
      else if colored && t.len > 0 && !IsAlnum(t.color) then Err(InvalidSetColor)
      else
        var rest :- BuildRuns(tokens[1..], colored);
        if t.len > 0 then Ok([RunSpec(t.len, if colored then t.color else COLOR_BLACK)] + rest)
        else Ok(rest)
  }

  /** The tokens a run list is written as. */
  function TokensOf(specs: seq<RunSpec>): (ts: seq<Token>)
    ensures |ts| == |specs| && forall k :: 0 <= k < |specs| ==> ts[k] == Token(specs[k].len, specs[k].color)
  {
    if |specs| == 0 then [] else [Token(specs[0].len, specs[0].color)] + TokensOf(specs[1..])
  }

  /** Reading back the tokens of a run list gives the run list: zero tokens aside, a clue is
      exactly its list of runs. */
  lemma {:induction false} BuildRunsOfTokens(specs: seq<RunSpec>, colored: bool)
    requires forall i :: 0 <= i < |specs| ==> specs[i].len > 0
    requires forall i :: 0 <= i < |specs| ==> if colored then IsAlnum(specs[i].color) else specs[i].color == COLOR_BLACK
    ensures BuildRuns(TokensOf(specs), colored) == Ok(specs)
  {
    if |specs| > 0 {
      BuildRunsOfTokens(specs[1..], colored);
      var ts := TokensOf(specs);
      assert ts[0] == Token(specs[0].len, specs[0].color);
      assert ts[1..] == TokensOf(specs[1..]);
      assert BuildRuns(ts, colored) == Ok([RunSpec(specs[0].len, specs[0].color)] + specs[1..]);
      assert [RunSpec(specs[0].len, specs[0].color)] + specs[1..] == specs;
    }
  }

  /** A `0` token is a no-op wherever it stands: it neither creates a run nor reads a colour. */
  lemma {:induction false} ZeroTokenIgnored(ts: seq<Token>, c: char, us: seq<Token>, colored: bool)
    ensures BuildRuns(ts + [Token(0, c)] + us, colored) == BuildRuns(ts + us, colored)
  {
    if |ts| == 0 {
      assert ts + [Token(0, c)] + us == [Token(0, c)] + us && ts + us == us;
      ZeroTokenFirst(c, us, colored);
    } else {
      var a, b := ts + [Token(0, c)] + us, ts + us;
      ZeroTokenIgnored(ts[1..], c, us, colored);
      TailOfConcat(ts, [Token(0, c)], us);
      SameFirstToken(a, b, colored);
    }
  }

  lemma ZeroTokenFirst(c: char, us: seq<Token>, colored: bool)
    ensures BuildRuns([Token(0, c)] + us, colored) == BuildRuns(us, colored)
  {
    assert ([Token(0, c)] + us)[1..] == us;
  }

  /** Two token lists with the same first token and run lists that agree after it agree. */
  lemma SameFirstToken(a: seq<Token>, b: seq<Token>, colored: bool)
    requires |a| > 0 && |b| > 0 && a[0] == b[0]
    requires BuildRuns(a[1..], colored) == BuildRuns(b[1..], colored)
    ensures BuildRuns(a, colored) == BuildRuns(b, colored)
  {
  }

  /** The flags `read_clue` derives: no gap before the first run, and a mandatory gap exactly when
      a run repeats the colour of the run before it. */
  function WithGaps(specs: seq<RunSpec>): seq<Run> {
    seq(|specs|, i requires 0 <= i < |specs| =>
      Run(specs[i].len, specs[i].color, i > 0 && specs[i].color == specs[i - 1].color))
  }

  /** The gap count a run contributes: 1 for a mandatory empty cell before it. */
  function GapOf(r: Run): nat {
    if r.emptyBefore then 1 else 0
  }

  /** Minimum length of a run list: the lengths plus the mandatory gaps. */
  function MinLength(runs: seq<Run>): nat {
    if |runs| == 0 then 0 else MinLength(runs[..|runs| - 1]) + runs[|runs| - 1].len + GapOf(runs[|runs| - 1])
  }

  /** The length of the line a clue describes: `pos < width` numbers a column. */
  function LineLength(pos: int, width: nat, height: nat): nat {
    if pos < width then height else width
  }

  /** The clue read from `tokens`, as clue `pos` of a `width` by `height` grid, fits its line: the
      tokens are valid and its runs with their mandatory gaps need no more cells than the line
      has. This is the check behind "Incompatible clue" (src/nonogram.c:392-409); `FitsIffSetUp`
      states it in terms of `BuildRuns` and `MinLength`. */
  predicate Fits(tokens: seq<Token>, colored: bool, pos: int, width: nat, height: nat) {
    ValidTokens(tokens, colored) && NeededCells(tokens, colored, COLOR_EMPTY, false) <= LineLength(pos, width, height)
  }

  /** The cells the runs of `tokens` need, counted token by token: each run its length, plus one
      when it repeats the colour `prev` of the run before it (`started` says there was one). */
  function NeededCells(tokens: seq<Token>, colored: bool, prev: char, started: bool): int
    decreases |tokens|
  {
    if |tokens| == 0 then 0
    else if tokens[0].len <= 0 then NeededCells(tokens[1..], colored, prev, started)
    else
      var c := if colored then tokens[0].color else COLOR_BLACK;
      tokens[0].len + (if started && c == prev then 1 else 0) + NeededCells(tokens[1..], colored, c, true)
  }

  /** The same count on a run list. */
  function SpecCells(specs: seq<RunSpec>, prev: char, started: bool): nat
    decreases |specs|
  {
    if |specs| == 0 then 0
    else specs[0].len + (if started && specs[0].color == prev then 1 else 0) + SpecCells(specs[1..], specs[0].color, true)
  }

  /** A clue fits exactly when its tokens build runs whose minimum length is at most the length of
      its line: what `SetUpClue` accepts. */
  lemma FitsIffSetUp(tokens: seq<Token>, colored: bool, pos: int, width: nat, height: nat)
    ensures Fits(tokens, colored, pos, width, height)
      <==> BuildRuns(tokens, colored).Ok? && MinLength(WithGaps(BuildRuns(tokens, colored).value)) <= LineLength(pos, width, height)
  {
    if ValidTokens(tokens, colored) {
      NeededIsSpecCells(tokens, colored, COLOR_EMPTY, false);
      MinLengthIsSpecCells(BuildRuns(tokens, colored).value);
    }
  }

  /** Counting on the tokens counts on the runs they build. */
  lemma {:induction false} NeededIsSpecCells(tokens: seq<Token>, colored: bool, prev: char, started: bool)
    requires ValidTokens(tokens, colored)
    ensures NeededCells(tokens, colored, prev, started) == SpecCells(BuildRuns(tokens, colored).value, prev, started)
    decreases |tokens|
  {
    if |tokens| > 0 {
      assert ValidTokens(tokens[1..], colored) by {
        forall i | 0 <= i < |tokens[1..]| ensures tokens[1..][i] == tokens[i + 1] { }
      }
      var c := if colored then tokens[0].color else COLOR_BLACK;
      if tokens[0].len > 0 {
        NeededIsSpecCells(tokens[1..], colored, c, true);
        var rest := BuildRuns(tokens[1..], colored).value;
        assert BuildRuns(tokens, colored).value == [RunSpec(tokens[0].len, c)] + rest;
        assert ([RunSpec(tokens[0].len, c)] + rest)[1..] == rest;
      } else {
        NeededIsSpecCells(tokens[1..], colored, prev, started);
      }
    }
  }

  /** Appending a run adds its length, and one more when it repeats the colour before it. */
  lemma {:induction false} SpecCellsSnoc(specs: seq<RunSpec>, x: RunSpec, prev: char, started: bool)
    ensures SpecCells(specs + [x], prev, started) == SpecCells(specs, prev, started) + x.len
      + (if (if |specs| > 0 then specs[|specs| - 1].color == x.color else started && prev == x.color) then 1 else 0)
    decreases |specs|
  {
    if |specs| > 0 {
      assert (specs + [x])[1..] == specs[1..] + [x];
      SpecCellsSnoc(specs[1..], x, specs[0].color, true);
    } else {
      assert specs + [x] == [x];
    }
  }

  /** The minimum length of the runs with their derived flags is the count on the run list. */
  lemma {:induction false} MinLengthIsSpecCells(specs: seq<RunSpec>)
    ensures MinLength(WithGaps(specs)) == SpecCells(specs, COLOR_EMPTY, false)
    decreases |specs|
  {
    var n := |specs|;
    if n > 0 {
      var s, x := specs[..n - 1], specs[n - 1];
      var runs := WithGaps(specs);
      assert runs[..n - 1] == WithGaps(s);
      assert runs[n - 1] == Run(x.len, x.color, n - 1 > 0 && x.color == specs[n - 2].color);
      MinLengthIsSpecCells(s);
      assert specs == s + [x];
      SpecCellsSnoc(s, x, COLOR_EMPTY, false);
    }
  }

  /** The runs start at the cells `starts`, in order, inside a line of `lineLen` cells: each run
      starts after the end of the one before, one cell later when it needs a gap. */
  predicate LaidOut(runs: seq<Run>, starts: seq<nat>, lineLen: nat) {
    && |starts| == |runs|
    && (|runs| > 0 ==> GapOf(runs[0]) <= starts[0] && starts[|runs| - 1] + runs[|runs| - 1].len <= lineLen)
    && (forall k :: 0 < k < |runs| ==> starts[k - 1] + runs[k - 1].len + GapOf(runs[k]) <= starts[k])
  }

  /** The starts of the runs packed to the left: each run right after the one before, with its
      gap. */
  function PackedStarts(runs: seq<Run>): (starts: seq<nat>)
    ensures |starts| == |runs|
    ensures forall k :: 0 <= k < |runs| ==> starts[k] == MinLength(runs[..k]) + GapOf(runs[k])
  {
    seq(|runs|, k requires 0 <= k < |runs| => MinLength(runs[..k]) + GapOf(runs[k]))
  }

  /** The minimum length is exactly what a layout needs: runs fit a line by their minimum length
      exactly when they can be laid out in it, so a clue is refused as incompatible exactly when
      its line has no room for it. */
  lemma FitsIffLaidOut(runs: seq<Run>, lineLen: nat)
    ensures MinLength(runs) <= lineLen ==> LaidOut(runs, PackedStarts(runs), lineLen)
    ensures forall starts :: LaidOut(runs, starts, lineLen) ==> MinLength(runs) <= lineLen
  {
    if MinLength(runs) <= lineLen {
      PackedLaidOut(runs, lineLen);
    }
    forall starts | LaidOut(runs, starts, lineLen) ensures MinLength(runs) <= lineLen {
      LaidOutFits(runs, starts, lineLen);
    }
  }

  lemma PackedLaidOut(runs: seq<Run>, lineLen: nat)
    requires MinLength(runs) <= lineLen
    ensures LaidOut(runs, PackedStarts(runs), lineLen)
  {
    var starts := PackedStarts(runs);
    forall k | 0 < k < |runs| ensures starts[k - 1] + runs[k - 1].len + GapOf(runs[k]) <= starts[k] {
      PackedStep(runs, starts, k);
    }
    if |runs| > 0 {
      PackedStep(runs, starts, |runs|);
      assert runs[..|runs|] == runs;
      assert runs[..0] == [];
    }
  }

  /** Packed runs: run `n - 1` ends where the first `n` runs' minimum length ends. */
  lemma PackedStep(runs: seq<Run>, starts: seq<nat>, n: nat)
    requires starts == PackedStarts(runs) && 0 < n <= |runs|
    ensures starts[n - 1] + runs[n - 1].len == MinLength(runs[..n])
    ensures n < |runs| ==> starts[n] == MinLength(runs[..n]) + GapOf(runs[n])
  {
    MinLengthStep(runs, n);
  }

  /** The minimum length of a prefix grows by the next run and its gap. */
  lemma MinLengthStep(runs: seq<Run>, n: nat)
    requires 0 < n <= |runs|
    ensures MinLength(runs[..n]) == MinLength(runs[..n - 1]) + runs[n - 1].len + GapOf(runs[n - 1])
  {
    assert runs[..n][..n - 1] == runs[..n - 1];
  }

  /** Laid-out runs need no more than their line. */
  lemma LaidOutFits(runs: seq<Run>, starts: seq<nat>, lineLen: nat)
    requires LaidOut(runs, starts, lineLen)
    ensures MinLength(runs) <= lineLen
  {
    if |runs| > 0 {
      PrefixEnds(runs, starts, lineLen, |runs|);
      assert runs[..|runs|] == runs;
    }
  }

  /** The first `n` laid-out runs need no more cells than up to the end of run `n - 1`. */
  lemma {:induction false} PrefixEnds(runs: seq<Run>, starts: seq<nat>, lineLen: nat, n: nat)
    requires LaidOut(runs, starts, lineLen) && 0 < n <= |runs|
    ensures MinLength(runs[..n]) <= starts[n - 1] + runs[n - 1].len
    decreases n
  {
    MinLengthStep(runs, n);
    if n > 1 {
      PrefixEnds(runs, starts, lineLen, n - 1);
    } else {
      assert runs[..n - 1] == [];
    }
  }

  /** `read_clue`'s derived fields (src/nonogram.c:368-410). The loop also visits the header set
      appended after the runs (colour `'?'`, length 0); no run has that colour, so it adds no
      gap and no length. An empty clue gets the whole line as slack; otherwise the slack is the
      line length minus the minimum length, and a clue that does not fit is rejected. */
  method SetUpClue(specs: seq<RunSpec>, pos: int, width: nat, height: nat) returns (r: Result<Clue, SetupError>)
    requires forall i :: 0 <= i < |specs| ==> RunColor(specs[i].color)
    ensures r.Ok? <==> MinLength(WithGaps(specs)) <= LineLength(pos, width, height)
    ensures r.Ok? ==> r.value.runs == WithGaps(specs)
    ensures r.Ok? ==> r.value.relaxation == LineLength(pos, width, height) - MinLength(r.value.runs) >= 0
    ensures r.Ok? && |specs| == 0 ==> r.value.relaxation == LineLength(pos, width, height)
    ensures r.Err? ==> r.error == IncompatibleClue
  {
    var lineLen := LineLength(pos, width, height);
    if |specs| == 0 {
      return Ok(Clue([], lineLen));
    }
    var ext := specs + [RunSpec(0, COLOR_UNKNOWN)];
    var runs := [Run(ext[0].len, ext[0].color, false)];
    var lenMin: int := ext[0].len;
    var i := 1;
    while i <= |specs|
      invariant 1 <= i <= |specs| + 1
      invariant runs == WithGaps(ext[..i])
      invariant lenMin == MinLength(runs)
    {
      var emptyBefore := ext[i].color == ext[i - 1].color;
      if emptyBefore {
        lenMin := lenMin + 1;
      }
      lenMin := lenMin + ext[i].len;
      assert WithGaps(ext[..i + 1]) == WithGaps(ext[..i]) + [Run(ext[i].len, ext[i].color, emptyBefore)];
      runs := runs + [Run(ext[i].len, ext[i].color, emptyBefore)];
      i := i + 1;
    }
    assert ext[..i] == ext;
    assert runs[..|specs|] == WithGaps(specs);
    assert !runs[|specs|].emptyBefore;
    if lenMin > lineLen {
      return Err(IncompatibleClue);
    }
    return Ok(Clue(runs[..|specs|], lineLen - lenMin));
  }
}
