/** A whole puzzle as the coloured solver reads it (src/nonogram.c:147-181): three integers,
    the width, the height and the colour flag; one character discarded; then the width's
    column clues, separated by commas and ended by a newline; then the height's row clues in
    the same way. Both encoders write this text. */
module PuzzleText {
  import opened Results
  import opened Decimal
  import opened ClueSetup
  import opened ClueText

  /** The errors of the puzzle reader: the grid attributes, or a clue (numbered from 0, columns
      first) and what was wrong with its text, or a clue that does not fit its line. */
  datatype PuzzleError =
    | InvalidGridAttributes
    | ClueError(clue: nat, error: TextError)
    | Incompatible(clue: nat)

  /** The puzzle read: its dimensions, its mode, and the tokens of its clues, columns first. */
  datatype Puzzle = Puzzle(width: nat, height: nat, colored: bool, clues: seq<seq<Token>>)

  /** `n` clues from index `i`, the first numbered `first`, of a `width` by `height` grid: each
      clue's text, checked to fit its line before its separator is read, then a comma, and a
      newline after the last (src/nonogram.c:162-181, 392-416). */
  function ReadGroup(text: string, i: nat, first: nat, n: nat, colored: bool, width: nat, height: nat): (r: Result<(seq<seq<Token>>, nat), PuzzleError>)
    requires i <= |text| && n >= 1
    ensures r.Ok? ==> |r.value.0| == n && i < r.value.1 <= |text| && text[r.value.1 - 1] == SEPARATOR_LINES
    ensures r.Ok? ==> forall k :: 0 <= k < n ==> ValidTokens(r.value.0[k], colored)
    ensures r.Ok? ==> GroupFits(r.value.0, colored, first, width, height)
    ensures r.Err? && !r.error.InvalidGridAttributes? ==> first <= r.error.clue < first + n
    ensures !At(text, i, DELIMITER_CLUE) ==> r == Err(ClueError(first, DoubleQuoteExpected))
    decreases n
  {
    var c := ReadClue(text, i, first, if n == 1 then SEPARATOR_LINES else SEPARATOR_CLUES, colored, width, height);
    if c.Err? then Err(c.error)
    else if n == 1 then
      OneClue(c.value.tokens, colored, first, width, height);
      Ok(([c.value.tokens], c.value.next))
    else
      var rest := ReadGroup(text, c.value.next, first + 1, n - 1, colored, width, height);
      if rest.Err? then rest
      else
        ConsClue(c.value.tokens, rest.value.0, colored, first, width, height);
        Ok(([c.value.tokens] + rest.value.0, rest.value.1))
  }

  /** Clue number `first` from index `i`: its text, checked to fit its line before its
      `separator` is read (src/nonogram.c:392-416). */
  function ReadClue(text: string, i: nat, first: nat, separator: char, colored: bool, width: nat, height: nat): (r: Result<Read, PuzzleError>)
    requires i <= |text|
    ensures r.Ok? ==> i < r.value.next <= |text| && text[r.value.next - 1] == separator
    ensures r.Ok? ==> ValidTokens(r.value.tokens, colored) && Fits(r.value.tokens, colored, first, width, height)
    ensures r.Err? ==> (r.error.ClueError? && r.error.clue == first) || r.error == Incompatible(first)
    ensures !At(text, i, DELIMITER_CLUE) ==> r == Err(ClueError(first, DoubleQuoteExpected))
  {
    var c := ReadClueText(text, i, colored);
    if c.Err? then Err(ClueError(first, c.error))
    else if !Fits(c.value.tokens, colored, first, width, height) then Err(Incompatible(first))
    else
      var e := ClueEnd(text, c.value.next, separator);
      if e.Err? then Err(ClueError(first, e.error))
      else Ok(Read(c.value.tokens, e.value))
  }

  /** A valid clue that fits is a group of valid clues that fit. */
  lemma OneClue(c: seq<Token>, colored: bool, first: nat, width: nat, height: nat)
    requires ValidTokens(c, colored) && Fits(c, colored, first, width, height)
    ensures forall k :: 0 <= k < |[c]| ==> ValidTokens([c][k], colored)
    ensures GroupFits([c], colored, first, width, height)
  {
  }

  /** A valid clue that fits, followed by a group of valid clues that fit, is a group of valid
      clues that fit. */
  lemma ConsClue(c: seq<Token>, rest: seq<seq<Token>>, colored: bool, first: nat, width: nat, height: nat)
    requires ValidTokens(c, colored) && Fits(c, colored, first, width, height)
    requires forall k :: 0 <= k < |rest| ==> ValidTokens(rest[k], colored)
    requires GroupFits(rest, colored, first + 1, width, height)
    ensures forall k :: 0 <= k < |[c] + rest| ==> ValidTokens(([c] + rest)[k], colored)
    ensures GroupFits([c] + rest, colored, first, width, height)
  {
    GroupFitsFront([c] + rest, colored, first, width, height);
  }

  /** Every clue of a group, the first numbered `first`, fits its line. */
  predicate GroupFits(clues: seq<seq<Token>>, colored: bool, first: nat, width: nat, height: nat) {
    forall k :: 0 <= k < |clues| ==> Fits(clues[k], colored, first + k, width, height)
  }

  /** A group fits when its first clue does and the rest of the group does. */
  lemma GroupFitsFront(clues: seq<seq<Token>>, colored: bool, first: nat, width: nat, height: nat)
    requires |clues| > 0
    ensures GroupFits(clues, colored, first, width, height)
      <==> Fits(clues[0], colored, first, width, height) && GroupFits(clues[1..], colored, first + 1, width, height)
  {
    if Fits(clues[0], colored, first, width, height) && GroupFits(clues[1..], colored, first + 1, width, height) {
      forall k | 0 <= k < |clues| ensures Fits(clues[k], colored, first + k, width, height) {
        if k > 0 {
          assert clues[k] == clues[1..][k - 1];
        }
      }
    }
    if GroupFits(clues, colored, first, width, height) {
      forall k | 0 <= k < |clues[1..]| ensures Fits(clues[1..][k], colored, first + 1 + k, width, height) {
        assert clues[1..][k] == clues[k + 1];
      }
    }
  }

  /** A group of two parts fits when each part fits, the second numbered after the first. */
  lemma GroupFitsConcat(a: seq<seq<Token>>, b: seq<seq<Token>>, colored: bool, first: nat, width: nat, height: nat)
    ensures GroupFits(a + b, colored, first, width, height)
      <==> GroupFits(a, colored, first, width, height) && GroupFits(b, colored, first + |a|, width, height)
  {
    if GroupFits(a + b, colored, first, width, height) {
      forall k | 0 <= k < |a| ensures Fits(a[k], colored, first + k, width, height) {
        assert (a + b)[k] == a[k];
      }
      forall k | 0 <= k < |b| ensures Fits(b[k], colored, first + |a| + k, width, height) {
        assert (a + b)[|a| + k] == b[k];
      }
    }
    if GroupFits(a, colored, first, width, height) && GroupFits(b, colored, first + |a|, width, height) {
      forall k | 0 <= k < |a + b| ensures Fits((a + b)[k], colored, first + k, width, height) {
        if k >= |a| {
          assert (a + b)[k] == b[k - |a|];
        }
      }
    }
  }

  /** `getchar()`: the index after one character, unless the text is exhausted. */
  function Skip(text: string, i: nat): (j: nat)
    requires i <= |text|
    ensures i <= j <= |text| && (i < |text| ==> j == i + 1)
  {
    if i < |text| then i + 1 else i
  }

  /** The grid attributes and the index where the clues start. */
  datatype Header = Header(width: nat, height: nat, colored: bool, next: nat)

  /** `scanf("%d%d%d")` of the width, the height and the colour flag, rejected unless all three
      are read and both dimensions are at least 1, then one character discarded
      (src/nonogram.c:147-152). Any non-zero flag selects the coloured mode. */
  function ReadHeader(text: string): (r: Result<Header, PuzzleError>)
    ensures r.Ok? ==> r.value.width >= 1 && r.value.height >= 1 && r.value.next <= |text|
    ensures r.Err? ==> r.error == InvalidGridAttributes
  {
    var a := ScanInt(text, 0);
    if a.NoMatch? then Err(InvalidGridAttributes)
    else
      var b := ScanInt(text, a.next);
      if b.NoMatch? then Err(InvalidGridAttributes)
      else
        var c := ScanInt(text, b.next);
        if c.NoMatch? || a.value < 1 || b.value < 1 then Err(InvalidGridAttributes)
        else Ok(Header(a.value, b.value, c.value != 0, Skip(text, c.next)))
  }

  /** The reading part of `main` (src/nonogram.c:147-181): the grid attributes, then the column
      clues, then the row clues. */
  function ReadPuzzle(text: string): (r: Result<Puzzle, PuzzleError>)
    ensures r.Ok? ==> r.value.width >= 1 && r.value.height >= 1
    ensures r.Ok? ==> |r.value.clues| == r.value.width + r.value.height
    ensures r.Ok? ==> forall k :: 0 <= k < |r.value.clues| ==> ValidTokens(r.value.clues[k], r.value.colored)
    ensures r.Ok? ==> GroupFits(r.value.clues, r.value.colored, 0, r.value.width, r.value.height)
  {
    var h :- ReadHeader(text);
    var columns :- ReadGroup(text, h.next, 0, h.width, h.colored, h.width, h.height);
    var rows :- ReadGroup(text, columns.1, h.width, h.height, h.colored, h.width, h.height);
    GroupFitsConcat(columns.0, rows.0, h.colored, 0, h.width, h.height);
    Ok(Puzzle(h.width, h.height, h.colored, columns.0 + rows.0))
  }

  /** `r` is what the reader makes of a group the encoders write, ending at `end`: its clues when
      every one fits its line, and a clue refused as incompatible otherwise. */
  predicate ReadsGroup(r: Result<(seq<seq<Token>>, nat), PuzzleError>, clues: seq<seq<Token>>, colored: bool, first: nat, width: nat, height: nat, end: nat) {
    if GroupFits(clues, colored, first, width, height) then r == Ok((clues, end))
    else r.Err? && r.error.Incompatible?
  }

  /** `r` is what the reader makes of a puzzle the encoders write: the puzzle when every clue fits
      its line, and a clue refused as incompatible otherwise. */
  predicate ReadsPuzzle(r: Result<Puzzle, PuzzleError>, width: nat, height: nat, colored: bool, columns: seq<seq<Token>>, rows: seq<seq<Token>>) {
    if GroupFits(columns + rows, colored, 0, width, height) then r == Ok(Puzzle(width, height, colored, columns + rows))
    else r.Err? && r.error.Incompatible?
  }

  /** A clue the encoders can write: at least one token, each read back as written. */
  predicate Writable(ts: seq<Token>, colored: bool) {
    |ts| > 0 && forall k :: 0 <= k < |ts| ==> Canonical(ts[k], colored)
  }

  /** Every clue of a group is one the encoders can write. */
  predicate AllWritable(clues: seq<seq<Token>>, colored: bool) {
    forall k :: 0 <= k < |clues| ==> Writable(clues[k], colored)
  }

  /** A group of clues as the encoders write it: the clue texts joined by commas, then a
      newline. */
  function GroupText(clues: seq<seq<Token>>, colored: bool): string
    requires |clues| > 0 && AllWritable(clues, colored)
  {
    assert Writable(clues[0], colored);
    ClueString(clues[0], colored) + (if |clues| == 1 then [SEPARATOR_LINES] else [SEPARATOR_CLUES] + GroupText(clues[1..], colored))
  }

  /** A group ends with its newline. */
  lemma {:induction false} GroupTextEnds(clues: seq<seq<Token>>, colored: bool)
    requires |clues| > 0 && AllWritable(clues, colored)
    ensures var g := GroupText(clues, colored); |g| > 0 && g == g[..|g| - 1] + [SEPARATOR_LINES]
    decreases |clues|
  {
    if |clues| > 1 {
      GroupTextFront(clues, colored);
      GroupTextEnds(clues[1..], colored);
      DropLast(ClueString(clues[0], colored) + [SEPARATOR_CLUES], GroupText(clues[1..], colored));
    }
  }

  /** Writing one more clue turns the group's closing newline into a comma and closes the group
      after the new clue: this is how the encoders, which write clue by clue, build the group. */
  lemma {:induction false} GroupTextSnoc(clues: seq<seq<Token>>, c: seq<Token>, colored: bool)
    requires |clues| > 0 && AllWritable(clues, colored)
    requires Writable(c, colored)
    ensures AllWritable(clues + [c], colored)
    ensures var g := GroupText(clues, colored);
      GroupText(clues + [c], colored) == g[..|g| - 1] + ([SEPARATOR_CLUES] + ClueString(c, colored) + [SEPARATOR_LINES])
    decreases |clues|
  {
    var cs := clues + [c];
    WritableSnoc(clues, c, colored);
    if |clues| == 1 {
      assert clues == [clues[0]] && cs == [clues[0], c];
      GroupTextPair(clues[0], c, colored);
    } else {
      assert cs[1..] == clues[1..] + [c];
      GroupTextSnoc(clues[1..], c, colored);
      var head := ClueString(clues[0], colored) + [SEPARATOR_CLUES];
      var t := GroupText(clues[1..], colored);
      GroupTextFront(clues, colored);
      GroupTextFront(cs, colored);
      DropLast(head, t);
    }
  }

  lemma WritableSnoc(clues: seq<seq<Token>>, c: seq<Token>, colored: bool)
    requires AllWritable(clues, colored)
    requires Writable(c, colored)
    ensures AllWritable(clues + [c], colored)
  {
    forall k | 0 <= k < |clues + [c]| ensures Writable((clues + [c])[k], colored) {
      if k < |clues| { assert (clues + [c])[k] == clues[k]; }
    }
  }

  lemma GroupTextFront(clues: seq<seq<Token>>, colored: bool)
    requires |clues| > 1 && AllWritable(clues, colored)
    ensures Writable(clues[0], colored) && AllWritable(clues[1..], colored)
    ensures GroupText(clues, colored) == (ClueString(clues[0], colored) + [SEPARATOR_CLUES]) + GroupText(clues[1..], colored)
  {
    assert Writable(clues[0], colored);
  }

  lemma GroupTextPair(c0: seq<Token>, c: seq<Token>, colored: bool)
    requires Writable(c0, colored) && Writable(c, colored)
    ensures GroupText([c0], colored) == ClueString(c0, colored) + [SEPARATOR_LINES]
    ensures GroupText([c0, c], colored) == ClueString(c0, colored) + ([SEPARATOR_CLUES] + ClueString(c, colored) + [SEPARATOR_LINES])
  {
    assert [c0, c][1..] == [c];
  }

  lemma DropLast(head: string, t: string)
    requires |t| > 0
    ensures (head + t)[..|head + t| - 1] == head + t[..|t| - 1]
  {
  }

  /** The colour flag as the encoders write it. */
  function Flag(colored: bool): nat {
    if colored then 1 else 0
  }

  /** A number on a line of its own. */
  function NumberLine(n: nat): string {
    Digits(n) + [SEPARATOR_LINES]
  }

  /** A whole puzzle as the encoders write it: the width, the height and the colour flag on
      lines of their own, then the column clues and the row clues. */
  function PuzzleString(width: nat, height: nat, colored: bool, columns: seq<seq<Token>>, rows: seq<seq<Token>>): string
    requires |columns| > 0 && AllWritable(columns, colored)
    requires |rows| > 0 && AllWritable(rows, colored)
  {
    NumberLine(width) + NumberLine(height) + NumberLine(Flag(colored)) + GroupText(columns, colored) + GroupText(rows, colored)
  }

  /** The text holds, from `i` on, the text the encoders write for a non-empty group of
      writable clues. */
  predicate GroupHoldsAt(text: string, i: nat, clues: seq<seq<Token>>, colored: bool) {
    |clues| > 0 && AllWritable(clues, colored) && HoldsAt(text, i, GroupText(clues, colored))
  }

  /** A group the encoders write reads back as its clues, and stops after its newline, unless
      one of its clues does not fit its line: then a clue is refused as incompatible. */
  lemma {:induction false} ReadGroupText(text: string, i: nat, first: nat, clues: seq<seq<Token>>, colored: bool, width: nat, height: nat, end: nat)
    requires GroupHoldsAt(text, i, clues, colored) && end == i + |GroupText(clues, colored)|
    ensures ReadsGroup(ReadGroup(text, i, first, |clues|, colored, width, height), clues, colored, first, width, height, end)
    decreases |clues|, 1
  {
    if |clues| == 1 {
      LastClueFacts(text, i, clues, colored, end - 1, end);
      GroupStepLast(text, i, first, clues, colored, width, height, end - 1, end);
    } else {
      ReadManyText(text, i, first, clues, colored, width, height, end);
    }
  }

  /** `ReadGroupText` for a group of several clues: the first clue, then the rest by induction. */
  lemma {:induction false} ReadManyText(text: string, i: nat, first: nat, clues: seq<seq<Token>>, colored: bool, width: nat, height: nat, end: nat)
    requires GroupHoldsAt(text, i, clues, colored) && |clues| > 1 && end == i + |GroupText(clues, colored)|
    ensures ReadsGroup(ReadGroup(text, i, first, |clues|, colored, width, height), clues, colored, first, width, height, end)
    decreases |clues|, 0
  {
    var k := i + |ClueString(clues[0], colored)|;
    FrontClueFacts(text, i, clues, colored, k, end);
    ReadGroupText(text, k + 1, first + 1, clues[1..], colored, width, height, end);
    GroupStepMore(text, i, first, clues, colored, width, height, k, k + 1, end);
  }

  /** The same, with the group's size and end given. */
  lemma GroupAt(text: string, i: nat, first: nat, n: nat, clues: seq<seq<Token>>, colored: bool, width: nat, height: nat, end: nat)
    requires n == |clues| > 0 && AllWritable(clues, colored)
    requires HoldsAt(text, i, GroupText(clues, colored)) && end == i + |GroupText(clues, colored)|
    ensures ReadsGroup(ReadGroup(text, i, first, n, colored, width, height), clues, colored, first, width, height, end)
  {
    ReadGroupText(text, i, first, clues, colored, width, height, end);
  }

  /** The one clue of a group reads back, ending at `k`, and its newline ends the group at `end`. */
  lemma LastClueFacts(text: string, i: nat, clues: seq<seq<Token>>, colored: bool, k: nat, end: nat)
    requires |clues| == 1 && AllWritable(clues, colored)
    requires HoldsAt(text, i, GroupText(clues, colored)) && end == i + |GroupText(clues, colored)| && k + 1 == end
    ensures i <= |text|
    ensures ReadClueText(text, i, colored) == Ok(Read(clues[0], k))
    ensures ClueEnd(text, k, SEPARATOR_LINES) == Ok(end)
  {
    GroupOfOneText(clues, colored);
    ClueThen(text, i, clues[0], colored, SEPARATOR_LINES, k, end);
  }

  /** The first clue of a group of several reads back, ending at `k`, its comma follows, and
      the text of the other clues comes after the comma and ends the group at `end`. */
  lemma FrontClueFacts(text: string, i: nat, clues: seq<seq<Token>>, colored: bool, k: nat, end: nat)
    requires |clues| > 1 && AllWritable(clues, colored)
    requires HoldsAt(text, i, GroupText(clues, colored))
    requires k == i + |ClueString(clues[0], colored)| && end == i + |GroupText(clues, colored)|
    ensures i <= |text| && k + 1 <= |text|
    ensures GroupHoldsAt(text, k + 1, clues[1..], colored) && end == k + 1 + |GroupText(clues[1..], colored)|
    ensures ReadClueText(text, i, colored) == Ok(Read(clues[0], k))
    ensures ClueEnd(text, k, SEPARATOR_CLUES) == Ok(k + 1)
  {
    GroupOfManyText(clues, colored);
    HoldsAtConcat(text, i, ClueString(clues[0], colored) + [SEPARATOR_CLUES], GroupText(clues[1..], colored));
    ClueThen(text, i, clues[0], colored, SEPARATOR_CLUES, k, k + 1);
  }

  lemma GroupOfOneText(clues: seq<seq<Token>>, colored: bool)
    requires |clues| == 1 && AllWritable(clues, colored)
    ensures Writable(clues[0], colored)
    ensures GroupText(clues, colored) == ClueString(clues[0], colored) + [SEPARATOR_LINES]
  {
    assert Writable(clues[0], colored);
  }

  lemma GroupOfManyText(clues: seq<seq<Token>>, colored: bool)
    requires |clues| > 1 && AllWritable(clues, colored)
    ensures Writable(clues[0], colored)
    ensures AllWritable(clues[1..], colored)
    ensures GroupText(clues, colored) == (ClueString(clues[0], colored) + [SEPARATOR_CLUES]) + GroupText(clues[1..], colored)
  {
    assert Writable(clues[0], colored);
  }

  /** A written clue and its separator read back, ending at `k` and `j`. */
  lemma ClueThen(text: string, i: nat, ts: seq<Token>, colored: bool, separator: char, k: nat, j: nat)
    requires Writable(ts, colored) && HoldsAt(text, i, ClueString(ts, colored) + [separator])
    requires k == i + |ClueString(ts, colored)| && j == k + 1
    ensures ReadClueText(text, i, colored) == Ok(Read(ts, k)) && ClueEnd(text, k, separator) == Ok(j)
  {
    ReadClueString(text, i, ts, colored, separator);
  }

  /** A group of one clue: the clue read and checked to fit, then its newline. */
  lemma GroupStepLast(text: string, i: nat, first: nat, clues: seq<seq<Token>>, colored: bool, width: nat, height: nat, k: nat, end: nat)
    requires i <= |text| && |clues| == 1
    requires ReadClueText(text, i, colored) == Ok(Read(clues[0], k))
    requires ClueEnd(text, k, SEPARATOR_LINES) == Ok(end)
    ensures ReadsGroup(ReadGroup(text, i, first, |clues|, colored, width, height), clues, colored, first, width, height, end)
  {
    assert [clues[0]] == clues;
    GroupFitsFront(clues, colored, first, width, height);
  }

  /** A group of several clues: the first clue read and checked to fit, then its comma, then
      the rest of the group from `j`. */
  lemma GroupStepMore(text: string, i: nat, first: nat, clues: seq<seq<Token>>, colored: bool, width: nat, height: nat, k: nat, j: nat, end: nat)
    requires i <= |text| && |clues| > 1 && j == k + 1 <= |text|
    requires ReadClueText(text, i, colored) == Ok(Read(clues[0], k))
    requires ClueEnd(text, k, SEPARATOR_CLUES) == Ok(j)
    requires ReadsGroup(ReadGroup(text, j, first + 1, |clues[1..]|, colored, width, height), clues[1..], colored, first + 1, width, height, end)
    ensures ReadsGroup(ReadGroup(text, i, first, |clues|, colored, width, height), clues, colored, first, width, height, end)
  {
    assert [clues[0]] + clues[1..] == clues;
    GroupFitsFront(clues, colored, first, width, height);
  }

  /** White space before a number is skipped. */
  lemma ScanAfterSpace(text: string, i: nat)
    requires i < |text| && IsSpace(text[i])
    ensures ScanInt(text, i) == ScanInt(text, i + 1)
  {
    assert SkipSpace(text, i) == SkipSpace(text, i + 1);
  }

  /** A number on a line of its own is read back, and the reader stops at the newline. */
  lemma ScanLine(text: string, i: nat, n: nat, next: nat)
    requires HoldsAt(text, i, NumberLine(n)) && next == i + |Digits(n)|
    ensures ScanInt(text, i) == Scanned(n, next)
    ensures next < |text| && IsSpace(text[next])
  {
    HoldsAtConcat(text, i, Digits(n), [SEPARATOR_LINES]);
    ScanNumeral(text, i, n);
  }

  /** A puzzle the encoders write is read back with its dimensions, its mode and its clues when
      every clue fits its line; otherwise a clue is refused as incompatible. */
  lemma ReadPuzzleString(width: nat, height: nat, colored: bool, columns: seq<seq<Token>>, rows: seq<seq<Token>>)
    requires width == |columns| >= 1 && height == |rows| >= 1
    requires AllWritable(columns, colored)
    requires AllWritable(rows, colored)
    ensures var r := ReadPuzzle(PuzzleString(width, height, colored, columns, rows));
      GroupFits(columns + rows, colored, 0, width, height) ==> r == Ok(Puzzle(width, height, colored, columns + rows))
    ensures var r := ReadPuzzle(PuzzleString(width, height, colored, columns, rows));
      !GroupFits(columns + rows, colored, 0, width, height) ==> r.Err? && r.error.Incompatible?
  {
    var text := PuzzleString(width, height, colored, columns, rows);
    HoldsAtSlice(text, 0, text);
    ReadPuzzleText(text, width, height, colored, columns, rows);
  }

  /** A one-cell puzzle whose column clue asks for two cells is refused as incompatible: the
      reader checks each clue against the length of its line (src/nonogram.c:392-398). */
  lemma TooLongClueRefused()
    ensures PuzzleString(1, 1, false, [[Token(2, COLOR_BLACK)]], [[Token(0, COLOR_BLACK)]]) == "1\n1\n0\n\"2\"\n\"0\"\n"
    ensures var r := ReadPuzzle(PuzzleString(1, 1, false, [[Token(2, COLOR_BLACK)]], [[Token(0, COLOR_BLACK)]]));
      r.Err? && r.error.Incompatible?
  {
    var cs, rs := [[Token(2, COLOR_BLACK)]], [[Token(0, COLOR_BLACK)]];
    OneCellText();
    assert cs[0][1..] == [];
    assert NeededCells(cs[0][1..], false, COLOR_BLACK, true) == 0;
    assert NeededCells(cs[0], false, COLOR_EMPTY, false) == 2;
    assert LineLength(0, 1, 1) == 1;
    assert (cs + rs)[0] == cs[0];
    ReadPuzzleString(1, 1, false, cs, rs);
  }

  /** The text written for that puzzle. */
  lemma OneCellText()
    ensures PuzzleString(1, 1, false, [[Token(2, COLOR_BLACK)]], [[Token(0, COLOR_BLACK)]]) == "1\n1\n0\n\"2\"\n\"0\"\n"
  {
    var c2, c0 := [Token(2, COLOR_BLACK)], [Token(0, COLOR_BLACK)];
    assert Digits(0) == "0" && Digits(1) == "1" && Digits(2) == "2";
    assert ClueString(c2, false) == "\"2\"";
    assert ClueString(c0, false) == "\"0\"";
    assert GroupText([c2], false) == "\"2\"\n";
    assert GroupText([c0], false) == "\"0\"\n";
  }

  /** The same, for a text that starts with a written puzzle. */
  lemma ReadPuzzleText(text: string, width: nat, height: nat, colored: bool, columns: seq<seq<Token>>, rows: seq<seq<Token>>)
    requires width == |columns| >= 1 && height == |rows| >= 1
    requires AllWritable(columns, colored)
    requires AllWritable(rows, colored)
    requires HoldsAt(text, 0, PuzzleString(width, height, colored, columns, rows))
    ensures ReadsPuzzle(ReadPuzzle(text), width, height, colored, columns, rows)
  {
    var p1 := |NumberLine(width)|;
    var p2 := p1 + |NumberLine(height)|;
    var p3 := p2 + |NumberLine(Flag(colored))|;
    var q := p3 + |GroupText(columns, colored)|;
    var e := q + |GroupText(rows, colored)|;
    PuzzleParts(text, width, height, colored, columns, rows, p1, p2, p3, q);
    ScanHeader(text, width, height, colored, p1, p2, p3);
    GroupAt(text, p3, 0, width, columns, colored, width, height, q);
    GroupAt(text, q, width, height, rows, colored, width, height, e);
    PuzzleStep(text, width, height, colored, columns, rows, p3, q, e);
  }

  /** The parts of a written puzzle, and where each starts. */
  lemma PuzzleParts(text: string, width: nat, height: nat, colored: bool, columns: seq<seq<Token>>, rows: seq<seq<Token>>,
                    p1: nat, p2: nat, p3: nat, q: nat)
    requires |columns| >= 1 && |rows| >= 1
    requires AllWritable(columns, colored)
    requires AllWritable(rows, colored)
    requires HoldsAt(text, 0, PuzzleString(width, height, colored, columns, rows))
    requires p1 == |NumberLine(width)| && p2 == p1 + |NumberLine(height)| && p3 == p2 + |NumberLine(Flag(colored))|
    requires q == p3 + |GroupText(columns, colored)|
    ensures HoldsAt(text, 0, NumberLine(width))
    ensures HoldsAt(text, p1, NumberLine(height))
    ensures HoldsAt(text, p2, NumberLine(Flag(colored)))
    ensures HoldsAt(text, p3, GroupText(columns, colored))
    ensures HoldsAt(text, q, GroupText(rows, colored))
  {
    var a, b, c := NumberLine(width), NumberLine(height), NumberLine(Flag(colored));
    var gc, gr := GroupText(columns, colored), GroupText(rows, colored);
    HoldsAtConcat(text, 0, a + b + c + gc, gr);
    HoldsAtConcat(text, 0, a + b + c, gc);
    HoldsAtConcat(text, 0, a + b, c);
    HoldsAtConcat(text, 0, a, b);
  }

  /** The header of a written puzzle is read back. */
  lemma ScanHeader(text: string, width: nat, height: nat, colored: bool, p1: nat, p2: nat, p3: nat)
    requires width >= 1 && height >= 1
    requires p1 == |NumberLine(width)| && p2 == p1 + |NumberLine(height)| && p3 == p2 + |NumberLine(Flag(colored))|
    requires HoldsAt(text, 0, NumberLine(width))
    requires HoldsAt(text, p1, NumberLine(height))
    requires HoldsAt(text, p2, NumberLine(Flag(colored)))
    ensures ReadHeader(text) == Ok(Header(width, height, colored, p3))
  {
    ScanLines(text, width, height, Flag(colored), p1, p2, p3);
    HeaderStep(text, width, height, colored, p1 - 1, p2 - 1, p3 - 1);
  }

  /** The three numbers of a written header are read back, each stopping at its newline. */
  lemma ScanLines(text: string, width: nat, height: nat, flag: nat, p1: nat, p2: nat, p3: nat)
    requires p1 == |NumberLine(width)| && p2 == p1 + |NumberLine(height)| && p3 == p2 + |NumberLine(flag)|
    requires HoldsAt(text, 0, NumberLine(width))
    requires HoldsAt(text, p1, NumberLine(height))
    requires HoldsAt(text, p2, NumberLine(flag))
    ensures p3 <= |text|
    ensures ScanInt(text, 0) == Scanned(width, p1 - 1)
    ensures ScanInt(text, p1 - 1) == Scanned(height, p2 - 1)
    ensures ScanInt(text, p2 - 1) == Scanned(flag, p3 - 1)
  {
    ScanLine(text, 0, width, p1 - 1);
    ScanLine(text, p1, height, p2 - 1);
    ScanAfterSpace(text, p1 - 1);
    ScanLine(text, p2, flag, p3 - 1);
    ScanAfterSpace(text, p2 - 1);
  }

  /** The reader's steps over a written puzzle put together. */
  lemma PuzzleStep(text: string, width: nat, height: nat, colored: bool, columns: seq<seq<Token>>, rows: seq<seq<Token>>,
                   p3: nat, q: nat, e: nat)
    requires width == |columns| >= 1 && height == |rows| >= 1 && q <= |text|
    requires ReadHeader(text) == Ok(Header(width, height, colored, p3))
    requires ReadsGroup(ReadGroup(text, p3, 0, width, colored, width, height), columns, colored, 0, width, height, q)
    requires ReadsGroup(ReadGroup(text, q, width, height, colored, width, height), rows, colored, width, width, height, e)
    ensures ReadsPuzzle(ReadPuzzle(text), width, height, colored, columns, rows)
  {
    GroupFitsConcat(columns, rows, colored, 0, width, height);
  }

  /** The header steps of the reader put together. */
  lemma HeaderStep(text: string, width: nat, height: nat, colored: bool, i1: nat, i2: nat, i3: nat)
    requires width >= 1 && height >= 1 && i3 < |text|
    requires ScanInt(text, 0) == Scanned(width, i1)
    requires i1 <= |text| && ScanInt(text, i1) == Scanned(height, i2)
    requires i2 <= |text| && ScanInt(text, i2) == Scanned(Flag(colored), i3)
    ensures ReadHeader(text) == Ok(Header(width, height, colored, i3 + 1))
  {
  }
}
