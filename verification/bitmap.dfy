/** The bitmap encoder `convert_bitmap` (src/convert_bitmap.c): it takes the width and the height
    from its two arguments, reads a grid of `'0'` and `'1'` cells one row per line, and writes the
    black-and-white puzzle whose clues are the lengths of the filled blocks of each column and each
    row, in the text the coloured solver reads. */
module Bitmap {
  import opened Results
  import opened Seqs
  import opened Limits
  import opened Decimal
  import opened ClueSetup
  import opened ClueText
  import opened PuzzleText
  import opened RunLength

  datatype BitmapError =
    | Usage
    | InvalidWidth
    | InvalidHeight
    | InvalidCell(row: nat, column: nat)
    | EndOfLineExpected

  /** A dimension argument (src/convert_bitmap.c:13-24): `strtol` in base 10, which skips white
      space, takes an optional sign and the longest digit string and saturates at `LONG_MAX`; the
      argument is refused unless the digits reach its end and the value is at least 1. */
  function ParseDim(arg: string, invalid: BitmapError): (r: Result<nat, BitmapError>)
    ensures r.Ok? ==> 1 <= r.value <= LONG_MAX
    ensures r.Err? ==> r.error == invalid
    ensures r.Ok? ==> |arg| > 0 && IsDigit(arg[|arg| - 1])
  {
    match ScanInt(arg, 0)
    case NoMatch => Err(invalid)
    case Scanned(v, next) =>
      var d := Min(v, LONG_MAX);
      if next < |arg| || d < 1 then Err(invalid) else Ok(d)
  }

  /** The arguments, the program name first (src/convert_bitmap.c:8-24). */
  function Dims(args: seq<string>): (r: Result<(nat, nat), BitmapError>)
    ensures r.Ok? <==> |args| == 3 && ParseDim(args[1], InvalidWidth).Ok? && ParseDim(args[2], InvalidHeight).Ok?
    ensures r.Ok? ==> r.value == (ParseDim(args[1], InvalidWidth).value, ParseDim(args[2], InvalidHeight).value)
    ensures |args| != 3 ==> r == Err(Usage)
    ensures |args| == 3 && ParseDim(args[1], InvalidWidth).Err? ==> r == Err(InvalidWidth)
    ensures |args| == 3 && ParseDim(args[1], InvalidWidth).Ok? && ParseDim(args[2], InvalidHeight).Err? ==> r == Err(InvalidHeight)
  {
    if |args| != 3 then Err(Usage)
    else
      var width :- ParseDim(args[1], InvalidWidth);
      var height :- ParseDim(args[2], InvalidHeight);
      Ok((width, height))
  }

  /** A numeral that fits a `long` is taken as it is. */
  lemma ParseNumeral(n: nat, invalid: BitmapError)
    requires 1 <= n <= LONG_MAX
    ensures ParseDim(Digits(n), invalid) == Ok(n)
  {
    ScanWhole(n);
  }

  /** A numeral beyond `LONG_MAX` is taken as `LONG_MAX`. */
  lemma ParseSaturates(n: nat, invalid: BitmapError)
    requires n > LONG_MAX
    ensures ParseDim(Digits(n), invalid) == Ok(LONG_MAX)
  {
    ScanWhole(n);
  }

  lemma ScanWhole(n: nat)
    ensures ScanInt(Digits(n), 0) == Scanned(n, |Digits(n)|)
  {
    HoldsAtSlice(Digits(n), 0, Digits(n));
    ScanNumeral(Digits(n), 0, n);
  }

  /** Anything after the digits makes the argument invalid. */
  lemma TrailingRefused(arg: string, c: char, invalid: BitmapError)
    requires !IsDigit(c)
    ensures ParseDim(arg + [c], invalid) == Err(invalid)
  {
  }

  /** The cells from `column` to `rowLen` of row `row` and the newline after them
      (src/convert_bitmap.c:32-46). Reading past the end of the input gives EOF, which is neither
      a cell nor a newline. */
  function ReadRow(input: string, p: nat, row: nat, column: nat, rowLen: nat): (r: Result<(seq<bool>, nat), BitmapError>)
    requires p <= |input| && column <= rowLen
    ensures r.Ok? ==> |r.value.0| == rowLen - column && r.value.1 == p + rowLen - column + 1 <= |input|
    ensures r.Err? ==> r.error == EndOfLineExpected || (r.error.InvalidCell? && r.error.row == row)
    decreases rowLen - column
  {
    if column == rowLen then
      if At(input, p, '\n') then Ok(([], p + 1)) else Err(EndOfLineExpected)
    else if At(input, p, '0') || At(input, p, '1') then
      var rest :- ReadRow(input, p + 1, row, column + 1, rowLen);
      Ok(([At(input, p, '1')] + rest.0, rest.1))
    else Err(InvalidCell(row, column))
  }

  /** Rows `row` to `height`, each of `rowLen` cells (src/convert_bitmap.c:31-47). */
  function ReadRows(input: string, p: nat, row: nat, height: nat, rowLen: nat): (r: Result<(seq<seq<bool>>, nat), BitmapError>)
    requires p <= |input| && row <= height
    ensures r.Ok? ==> |r.value.0| == height - row && r.value.1 <= |input|
    ensures r.Ok? ==> forall k :: 0 <= k < |r.value.0| ==> |r.value.0[k]| == rowLen
    decreases height - row
  {
    if row == height then Ok(([], p))
    else
      var first :- ReadRow(input, p, row, 0, rowLen);
      var rest :- ReadRows(input, first.1, row + 1, height, rowLen);
      Ok(([first.0] + rest.0, rest.1))
  }

  /** `width` cells in each of `height` rows. */
  predicate Rectangular(g: seq<seq<bool>>, width: nat, height: nat) {
    |g| == height && forall k :: 0 <= k < |g| ==> |g[k]| == width
  }

  /** The reading loop as written (src/convert_bitmap.c:31-32): the inner loop runs to the
      height, so each row is read with as many cells as the grid has rows. */
  function ReadBitmapAsWritten(input: string, width: nat, height: nat): (r: Result<seq<seq<bool>>, BitmapError>)
    ensures r.Ok? ==> Rectangular(r.value, height, height)
  {
    var rows :- ReadRows(input, 0, 0, height, height);
    Ok(rows.0)
  }

  /** The reading loop with each row read to the width. Input after the last row is ignored. */
  function ReadBitmap(input: string, width: nat, height: nat): (r: Result<seq<seq<bool>>, BitmapError>)
    ensures r.Ok? ==> Rectangular(r.value, width, height)
  {
    var rows :- ReadRows(input, 0, 0, height, width);
    Ok(rows.0)
  }

  function Cell(b: bool): char {
    if b then '1' else '0'
  }

  function Bits(cells: seq<bool>): (s: string)
    ensures |s| == |cells|
  {
    if |cells| == 0 then [] else [Cell(cells[0])] + Bits(cells[1..])
  }

  /** A grid as a bitmap file: each row's cells, then a newline. */
  function Render(g: seq<seq<bool>>): string {
    if |g| == 0 then [] else Bits(g[0]) + ['\n'] + Render(g[1..])
  }

  /** A row of a bitmap file is read back when the reader expects as many cells as it has; when
      the reader expects more it meets the newline where a cell should be, and when it expects
      fewer it meets a cell where the newline should be. */
  lemma {:induction false} ReadRowText(input: string, p: nat, row: nat, cells: seq<bool>, column: nat, rowLen: nat)
    requires column <= rowLen && HoldsAt(input, p, Bits(cells) + ['\n'])
    ensures p <= |input|
    ensures column + |cells| == rowLen ==> ReadRow(input, p, row, column, rowLen) == Ok((cells, p + |cells| + 1))
    ensures column + |cells| < rowLen ==> ReadRow(input, p, row, column, rowLen) == Err(InvalidCell(row, column + |cells|))
    ensures column + |cells| > rowLen ==> ReadRow(input, p, row, column, rowLen) == Err(EndOfLineExpected)
    decreases |cells|
  {
    var w := Bits(cells) + ['\n'];
    if |cells| > 0 {
      assert w[0] == Cell(cells[0]) && w[1..] == Bits(cells[1..]) + ['\n'];
      if column < rowLen {
        ReadRowText(input, p + 1, row, cells[1..], column + 1, rowLen);
        assert [cells[0]] + cells[1..] == cells;
      }
    } else {
      assert w == ['\n'];
    }
  }

  /** The rows of a bitmap file are read back when each has `rowLen` cells. */
  lemma {:induction false} ReadRowsText(input: string, p: nat, row: nat, g: seq<seq<bool>>, height: nat, rowLen: nat)
    requires row + |g| == height && forall k :: 0 <= k < |g| ==> |g[k]| == rowLen
    requires HoldsAt(input, p, Render(g))
    ensures ReadRows(input, p, row, height, rowLen) == Ok((g, p + |Render(g)|))
    decreases |g|
  {
    if |g| > 0 {
      var first := Bits(g[0]) + ['\n'];
      HoldsAtConcat(input, p, first, Render(g[1..]));
      ReadRowText(input, p, row, g[0], 0, rowLen);
      var q := p + |first|;
      ReadRowsText(input, q, row + 1, g[1..], height, rowLen);
      assert [g[0]] + g[1..] == g;
    } else {
      HoldsAtSlice(input, p, Render(g));
    }
  }

  /** A bitmap file is read back as its grid, whatever follows it. */
  lemma ReadRender(input: string, g: seq<seq<bool>>, width: nat, height: nat)
    requires Rectangular(g, width, height) && HoldsAt(input, 0, Render(g))
    ensures ReadBitmap(input, width, height) == Ok(g)
  {
    ReadRowsText(input, 0, 0, g, height, width);
  }

  /** As written, the reader refuses every bitmap that is not square: its first row is read with
      `height` cells, so a narrower row meets its newline where a cell is expected, and a wider
      row has a cell where the newline is expected. */
  lemma AsWrittenRefusesNonSquare(input: string, g: seq<seq<bool>>, width: nat, height: nat)
    requires Rectangular(g, width, height) && height >= 1 && HoldsAt(input, 0, Render(g))
    ensures width < height ==> ReadBitmapAsWritten(input, width, height) == Err(InvalidCell(0, width))
    ensures width > height ==> ReadBitmapAsWritten(input, width, height) == Err(EndOfLineExpected)
    ensures width == height ==> ReadBitmapAsWritten(input, width, height) == Ok(g)
  {
    HoldsAtConcat(input, 0, Bits(g[0]) + ['\n'], Render(g[1..]));
    ReadRowText(input, 0, 0, g[0], 0, height);
    if width == height {
      ReadRowsText(input, 0, 0, g, height, height);
    }
  }

  /** The lengths of the blocks of filled cells among `bs`, in order. */
  function FilledLengths(bs: seq<Block<bool>>): seq<nat> {
    if |bs| == 0 then []
    else
      var b := bs[|bs| - 1];
      FilledLengths(bs[..|bs| - 1]) + (if b.value then [b.len] else [])
  }

  /** The clue of a line: the lengths of its blocks of filled cells. */
  function RunLengths(line: seq<bool>): seq<nat> {
    FilledLengths(Blocks(line))
  }

  /** The filled lengths of any run-length encoding of a line are its clue. */
  lemma RunLengthsOfEncoding(line: seq<bool>, bs: seq<Block<bool>>)
    requires Encodes(bs, line)
    ensures RunLengths(line) == FilledLengths(bs)
  {
    BlocksEncode(line);
    EncodingUnique(Blocks(line), bs, line);
  }

  /** The number of filled cells of a line. */
  function Filled(line: seq<bool>): nat {
    if |line| == 0 then 0 else Filled(line[..|line| - 1]) + (if line[|line| - 1] then 1 else 0)
  }

  function Sum(ls: seq<nat>): nat {
    if |ls| == 0 then 0 else Sum(ls[..|ls| - 1]) + ls[|ls| - 1]
  }

  /** How a line's clue grows by one cell: an empty cell leaves it alone, a filled cell after a
      filled cell lengthens the last block, and any other filled cell opens a block of 1. */
  lemma RunLengthsSnoc(s: seq<bool>, c: bool)
    ensures !c ==> RunLengths(s + [c]) == RunLengths(s)
    ensures c && |s| > 0 && s[|s| - 1] ==> var l := RunLengths(s);
      |l| > 0 && RunLengths(s + [c]) == l[..|l| - 1] + [l[|l| - 1] + 1]
    ensures c && (|s| == 0 || !s[|s| - 1]) ==> RunLengths(s + [c]) == RunLengths(s) + [1]
  {
    BlocksSnoc(s, c);
    var p := Blocks(s);
    if |s| > 0 {
      BlocksEncode(s);
      LastBlock(p, s, |p| - 1);
      assert Holds(p, s, |p| - 1);
      assert s[|s| - 1] == p[|p| - 1].value;
    }
    if |p| > 0 && p[|p| - 1].value == c {
      var q := p[..|p| - 1] + [p[|p| - 1].(len := p[|p| - 1].len + 1)];
      assert q[..|q| - 1] == p[..|p| - 1];
    } else {
      var q := p + [Block(|s|, 1, c)];
      assert q[..|q| - 1] == p;
    }
  }

  /** Every block of the clue is at least one cell long, and the blocks add up to the filled
      cells of the line. */
  lemma {:induction false} RunLengthsCount(line: seq<bool>)
    ensures forall k :: 0 <= k < |RunLengths(line)| ==> RunLengths(line)[k] >= 1
    ensures Sum(RunLengths(line)) == Filled(line)
    decreases |line|
  {
    if |line| > 0 {
      var s := line[..|line| - 1];
      var c := line[|line| - 1];
      assert s + [c] == line;
      RunLengthsCount(s);
      RunLengthsSnoc(s, c);
      var l := RunLengths(s);
      var m := RunLengths(line);
      assert Filled(line) == Filled(s) + (if c then 1 else 0);
      if !c {
        assert m == l;
      } else if |s| > 0 && s[|s| - 1] {
        assert m == l[..|l| - 1] + [l[|l| - 1] + 1];
        GrowLast(l);
      } else {
        assert m == l + [1];
        OpenBlock(l);
      }
    }
  }

  /** Lengthening the last block by a cell keeps every block positive and adds one cell. */
  lemma GrowLast(l: seq<nat>)
    requires |l| > 0 && forall k :: 0 <= k < |l| ==> l[k] >= 1
    ensures var m := l[..|l| - 1] + [l[|l| - 1] + 1]; (forall k :: 0 <= k < |m| ==> m[k] >= 1) && Sum(m) == Sum(l) + 1
  {
    var front := l[..|l| - 1];
    SnocFront(front, l[|l| - 1] + 1);
  }

  /** Opening a block of one cell keeps every block positive and adds one cell. */
  lemma OpenBlock(l: seq<nat>)
    requires forall k :: 0 <= k < |l| ==> l[k] >= 1
    ensures var m := l + [1]; (forall k :: 0 <= k < |m| ==> m[k] >= 1) && Sum(m) == Sum(l) + 1
  {
    SnocFront(l, 1);
  }

  /** The numbers of `ls`, each followed by a comma, as `printf("%d,")` writes them. */
  function Numbers(ls: seq<nat>): string {
    if |ls| == 0 then [] else Digits(ls[0]) + [SEPARATOR_SETS] + Numbers(ls[1..])
  }

  lemma {:induction false} NumbersSnoc(ls: seq<nat>, x: nat)
    ensures Numbers(ls + [x]) == Numbers(ls) + Digits(x) + [SEPARATOR_SETS]
    decreases |ls|
  {
    if |ls| > 0 {
      assert (ls + [x])[1..] == ls[1..] + [x];
      NumbersSnoc(ls[1..], x);
    } else {
      assert ls + [x] == [x];
    }
  }

  /** One black token per length. */
  function BlackTokens(ls: seq<nat>): (ts: seq<Token>)
    ensures |ts| == |ls| && forall k :: 0 <= k < |ls| ==> ts[k] == Token(ls[k], COLOR_BLACK)
  {
    if |ls| == 0 then [] else [Token(ls[0], COLOR_BLACK)] + BlackTokens(ls[1..])
  }

  /** The tokens of a black-and-white clue: one per block, and the closing 0 the encoder
      writes. */
  function LineClue(line: seq<bool>): (ts: seq<Token>)
    ensures Writable(ts, false)
  {
    BlackTokens(RunLengths(line)) + [Token(0, COLOR_BLACK)]
  }

  /** The text of a clue of lengths `ls`: its numbers, each followed by a comma, then `0"`. */
  lemma {:induction false} NumbersText(ls: seq<nat>)
    ensures Writable(BlackTokens(ls) + [Token(0, COLOR_BLACK)], false)
    ensures SetsText(BlackTokens(ls) + [Token(0, COLOR_BLACK)], false) == Numbers(ls) + ['0', DELIMITER_CLUE]
    decreases |ls|
  {
    var ts := BlackTokens(ls) + [Token(0, COLOR_BLACK)];
    assert Writable(ts, false);
    if |ls| == 0 {
      assert ts == [Token(0, COLOR_BLACK)];
    } else {
      NumbersText(ls[1..]);
      assert ts[1..] == BlackTokens(ls[1..]) + [Token(0, COLOR_BLACK)];
      SetsTextMore(ts, false);
    }
  }

  /** What the line loop has written after `j` cells with the open block `len` long: a quote and
      the lengths of the blocks that are closed, where a block that reaches the end of the line
      counts as closed. */
  predicate Progress(line: seq<bool>, j: nat, len: nat, out: string)
    requires j <= |line|
  {
    var l := RunLengths(line[..j]);
    && (len > 0 <==> j > 0 && line[j - 1])
    && (len > 0 ==> |l| > 0 && l[|l| - 1] == len)
    && out == [DELIMITER_CLUE] + Numbers(if len > 0 && j < |line| then l[..|l| - 1] else l)
  }

  /** An empty cell writes the block it closes. */
  lemma EmptyStep(line: seq<bool>, j: nat, len: nat, out: string)
    requires j < |line| && !line[j] && Progress(line, j, len, out)
    ensures len > 0 ==> Progress(line, j + 1, 0, out + Digits(len) + [SEPARATOR_SETS])
    ensures len == 0 ==> Progress(line, j + 1, 0, out)
  {
    var l := RunLengths(line[..j]);
    assert line[..j + 1] == line[..j] + [line[j]];
    RunLengthsSnoc(line[..j], line[j]);
    assert RunLengths(line[..j + 1]) == l;
    if len > 0 {
      var f := l[..|l| - 1];
      assert out == [DELIMITER_CLUE] + Numbers(f);
      assert l == f + [len];
      NumbersSnoc(f, len);
      Regroup([DELIMITER_CLUE], Numbers(f), Digits(len), [SEPARATOR_SETS]);
    }
  }

  /** A filled cell before the last lengthens the open block. */
  lemma FilledStep(line: seq<bool>, j: nat, len: nat, out: string)
    requires j < |line| - 1 && line[j] && Progress(line, j, len, out)
    ensures Progress(line, j + 1, len + 1, out)
  {
    FilledGrows(line, j, len);
  }

  /** A filled last cell lengthens the open block and writes it. */
  lemma FilledLast(line: seq<bool>, j: nat, len: nat, out: string)
    requires j == |line| - 1 && line[j] && Progress(line, j, len, out)
    ensures Progress(line, j + 1, len + 1, out + Digits(len + 1) + [SEPARATOR_SETS])
  {
    var m := RunLengths(line[..j + 1]);
    FilledGrows(line, j, len);
    var f := m[..|m| - 1];
    assert out == [DELIMITER_CLUE] + Numbers(f);
    NumbersSnoc(f, len + 1);
    Regroup([DELIMITER_CLUE], Numbers(f), Digits(len + 1), [SEPARATOR_SETS]);
  }

  /** After a filled cell the last block is the open one, one cell longer. */
  lemma FilledGrows(line: seq<bool>, j: nat, len: nat)
    requires j < |line| && line[j]
    requires len > 0 <==> j > 0 && line[j - 1]
    requires var l := RunLengths(line[..j]); len > 0 ==> |l| > 0 && l[|l| - 1] == len
    ensures var l := RunLengths(line[..j]); var m := RunLengths(line[..j + 1]);
      && |m| > 0 && m == m[..|m| - 1] + [len + 1]
      && m[..|m| - 1] == (if len > 0 then l[..|l| - 1] else l)
  {
    var s := line[..j];
    var l := RunLengths(s);
    assert line[..j + 1] == s + [true];
    RunLengthsSnoc(s, true);
    if len > 0 {
      assert |s| > 0 && s[|s| - 1];
      SnocFront(l[..|l| - 1], len + 1);
    } else {
      assert |s| == 0 || !s[|s| - 1];
      SnocFront(l, 1);
    }
  }

  /** A sequence with one more element at its end, and that element dropped again. */
  lemma SnocFront(p: seq<nat>, x: nat)
    ensures var m := p + [x]; |m| > 0 && m[..|m| - 1] == p && m[|m| - 1] == x
  {
    var m := p + [x];
    assert m[..|m| - 1] == p;
  }

  /** One clue of the output (src/convert_bitmap.c:50-66 for a column, 73-89 for a row): a
      quote, the length of each block of filled cells as it ends, the closing `0"`. A block that
      reaches the end of the line is written at its last cell. */
  method EncodeLine(line: seq<bool>) returns (out: string)
    ensures out == ClueString(LineClue(line), false)
  {
    var n := |line|;
    out := [DELIMITER_CLUE];
    var len: nat := 0;
    var j := 0;
    while j < n
      invariant 0 <= j <= n && Progress(line, j, len, out)
    {
      if !line[j] {
        EmptyStep(line, j, len, out);
        if len > 0 {
          out := out + Digits(len) + [SEPARATOR_SETS];
          len := 0;
        }
      } else {
        if j == n - 1 {
          FilledLast(line, j, len, out);
          len := len + 1;
          out := out + Digits(len) + [SEPARATOR_SETS];
        } else {
          FilledStep(line, j, len, out);
          len := len + 1;
        }
      }
      j := j + 1;
    }
    LineDone(line, len, out);
    out := out + ['0', DELIMITER_CLUE];
  }

  /** After the last cell, `0"` completes the clue. */
  lemma LineDone(line: seq<bool>, len: nat, out: string)
    requires Progress(line, |line|, len, out)
    ensures out + ['0', DELIMITER_CLUE] == ClueString(LineClue(line), false)
  {
    assert line[..|line|] == line;
    var l := RunLengths(line);
    assert out == [DELIMITER_CLUE] + Numbers(l);
    NumbersText(l);
    assert ClueString(LineClue(line), false) == [DELIMITER_CLUE] + (Numbers(l) + ['0', DELIMITER_CLUE]);
  }

  /** The clues of a sequence of lines. */
  function Clues(lines: seq<seq<bool>>): (cs: seq<seq<Token>>)
    ensures |cs| == |lines| && forall k :: 0 <= k < |cs| ==> Writable(cs[k], false)
  {
    seq(|lines|, k requires 0 <= k < |lines| => LineClue(lines[k]))
  }

  /** What the group loop has written after `i` clues: the group of those clues without its
      closing newline, and a comma unless the last clue is written. */
  predicate GroupProgress(cs: seq<seq<Token>>, i: nat, out: string)
    requires 0 < i <= |cs| && forall k :: 0 <= k < |cs| ==> Writable(cs[k], false)
  {
    var g := GroupText(cs[..i], false);
    out == (if i < |cs| then g[..|g| - 1] + [SEPARATOR_CLUES] else g[..|g| - 1])
  }

  /** Writing clue `i`, and a comma unless it is the last. */
  lemma GroupStep(cs: seq<seq<Token>>, i: nat, out: string, c: string)
    requires i < |cs| && forall k :: 0 <= k < |cs| ==> Writable(cs[k], false)
    requires Writable(cs[i], false) && c == ClueString(cs[i], false)
    requires i == 0 ==> out == []
    requires i > 0 ==> GroupProgress(cs, i, out)
    ensures i < |cs| - 1 ==> GroupProgress(cs, i + 1, out + c + [SEPARATOR_CLUES])
    ensures i == |cs| - 1 ==> GroupProgress(cs, i + 1, out + c)
  {
    if i == 0 {
      GroupStepFirst(cs, out, c);
    } else {
      GroupStepNext(cs, i, out, c);
    }
  }

  /** The text of the first clue of a group. */
  lemma GroupStepFirst(cs: seq<seq<Token>>, out: string, c: string)
    requires 0 < |cs| && forall k :: 0 <= k < |cs| ==> Writable(cs[k], false)
    requires Writable(cs[0], false) && c == ClueString(cs[0], false) && out == []
    ensures GroupText(cs[..1], false)[..|GroupText(cs[..1], false)| - 1] == out + c
  {
    var h := GroupText(cs[..1], false);
    assert cs[..1] == [cs[0]];
    GroupTextPair(cs[0], cs[0], false);
    assert h == (out + c) + [SEPARATOR_LINES];
  }

  /** The text of clue `i` after the clues before it. */
  lemma GroupStepNext(cs: seq<seq<Token>>, i: nat, out: string, c: string)
    requires 0 < i < |cs| && forall k :: 0 <= k < |cs| ==> Writable(cs[k], false)
    requires Writable(cs[i], false) && c == ClueString(cs[i], false) && GroupProgress(cs, i, out)
    ensures GroupText(cs[..i + 1], false)[..|GroupText(cs[..i + 1], false)| - 1] == out + c
  {
    var p := cs[..i];
    assert cs[..i + 1] == p + [cs[i]];
    GroupTextSnoc(p, cs[i], false);
    var g := GroupText(p, false);
    assert out == g[..|g| - 1] + [SEPARATOR_CLUES];
    var h := GroupText(cs[..i + 1], false);
    assert h == g[..|g| - 1] + ([SEPARATOR_CLUES] + c + [SEPARATOR_LINES]);
    CommaThenClose(g[..|g| - 1], c);
  }

  /** Dropping the closing newline after a comma and a clue leaves the comma and the clue. */
  lemma CommaThenClose(g: string, c: string)
    ensures var h := g + ([SEPARATOR_CLUES] + c + [SEPARATOR_LINES]); h[..|h| - 1] == (g + [SEPARATOR_CLUES]) + c
  {
    var h := g + ([SEPARATOR_CLUES] + c + [SEPARATOR_LINES]);
    assert h == ((g + [SEPARATOR_CLUES]) + c) + [SEPARATOR_LINES];
  }

  /** The clues of a group of lines, a comma after each but the last, and the newline `puts("")`
      writes (src/convert_bitmap.c:49-71 and 72-94). */
  method EncodeGroup(lines: seq<seq<bool>>) returns (out: string)
    requires |lines| >= 1
    ensures out == GroupText(Clues(lines), false)
  {
    var cs := Clues(lines);
    out := [];
    var i := 0;
    while i < |lines|
      invariant 0 <= i <= |lines|
      invariant i == 0 ==> out == []
      invariant i > 0 ==> GroupProgress(cs, i, out)
    {
      var c := EncodeLine(lines[i]);
      assert Writable(cs[i], false);
      GroupStep(cs, i, out, c);
      if i < |lines| - 1 {
        out := out + c + [SEPARATOR_CLUES];
      } else {
        out := out + c;
      }
      i := i + 1;
    }
    GroupDone(cs, out);
    out := out + [SEPARATOR_LINES];
  }

  /** After the last clue, the newline completes the group. */
  lemma GroupDone(cs: seq<seq<Token>>, out: string)
    requires 0 < |cs| && forall k :: 0 <= k < |cs| ==> Writable(cs[k], false)
    requires GroupProgress(cs, |cs|, out)
    ensures out + [SEPARATOR_LINES] == GroupText(cs, false)
  {
    assert cs[..|cs|] == cs;
    GroupTextEnds(cs, false);
  }

  /** The columns of a rectangular grid. */
  function Columns(g: seq<seq<bool>>, width: nat): (cs: seq<seq<bool>>)
    requires Rectangular(g, width, |g|)
    ensures |cs| == width && forall i :: 0 <= i < width ==> |cs[i]| == |g|
    ensures forall i, j :: 0 <= i < width && 0 <= j < |g| ==> cs[i][j] == g[j][i]
  {
    seq(width, i requires 0 <= i < width => seq(|g|, j requires 0 <= j < |g| => g[j][i]))
  }

  /** The whole program: the dimensions, the grid, then the header, the column clues and the
      row clues (src/convert_bitmap.c:4-97), with the row loop corrected (see ## Findings in
      the README): the grid is read by `ReadBitmap`, each row to the width, not by
      `ReadBitmapAsWritten`. */
  method Convert(args: seq<string>, input: string) returns (r: Result<string, BitmapError>)
    ensures Dims(args).Err? ==> r == Err(Dims(args).error)
    ensures Dims(args).Ok? ==> var (width, height) := Dims(args).value;
      ReadBitmap(input, width, height).Err? ==> r == Err(ReadBitmap(input, width, height).error)
    ensures Dims(args).Ok? ==> var (width, height) := Dims(args).value;
      ReadBitmap(input, width, height).Ok? ==> var g := ReadBitmap(input, width, height).value;
      r == Ok(PuzzleString(width, height, false, Clues(Columns(g, width)), Clues(g)))
  {
    var dims := Dims(args);
    if dims.Err? {
      return Err(dims.error);
    }
    var (width, height) := dims.value;
    var grid := ReadBitmap(input, width, height);
    if grid.Err? {
      return Err(grid.error);
    }
    var g := grid.value;
    var header := NumberLine(width) + NumberLine(height) + ['0', SEPARATOR_LINES];
    assert header == NumberLine(width) + NumberLine(height) + NumberLine(Flag(false));
    var columns := EncodeGroup(Columns(g, width));
    var rows := EncodeGroup(g);
    r := Ok(header + columns + rows);
  }

  /** One black run per length. */
  function BlackSpecs(ls: seq<nat>): (ss: seq<RunSpec>)
    ensures |ss| == |ls| && forall k :: 0 <= k < |ls| ==> ss[k] == RunSpec(ls[k], COLOR_BLACK)
  {
    if |ls| == 0 then [] else [RunSpec(ls[0], COLOR_BLACK)] + BlackSpecs(ls[1..])
  }

  /** The solver sets up one black run per positive length. */
  lemma {:induction false} BlackRuns(ls: seq<nat>)
    requires forall k :: 0 <= k < |ls| ==> ls[k] >= 1
    ensures BuildRuns(BlackTokens(ls), false) == Ok(BlackSpecs(ls))
    decreases |ls|
  {
    if |ls| > 0 {
      BlackRuns(ls[1..]);
      assert BlackTokens(ls)[1..] == BlackTokens(ls[1..]);
    }
  }

  /** The solver's runs for a clue the encoder writes are one black run per block of filled
      cells of the line, in order: the closing 0 adds none. */
  lemma LineRuns(line: seq<bool>)
    ensures BuildRuns(LineClue(line), false) == Ok(BlackSpecs(RunLengths(line)))
  {
    var ts := BlackTokens(RunLengths(line));
    RunLengthsCount(line);
    BlackRuns(RunLengths(line));
    ZeroTokenIgnored(ts, COLOR_BLACK, [], false);
    assert ts + [Token(0, COLOR_BLACK)] + [] == LineClue(line);
    assert ts + [] == ts;
  }

  /** The cells a clue of black runs needs: the lengths, and one gap between two neighbouring
      runs, since they share a colour. */
  lemma {:induction false} BlackCells(ls: seq<nat>)
    ensures SpecCells(BlackSpecs(ls), COLOR_EMPTY, false) + (if |ls| > 0 then 1 else 0) == Sum(ls) + |ls|
    decreases |ls|
  {
    if |ls| > 0 {
      var s, x := ls[..|ls| - 1], ls[|ls| - 1];
      BlackCells(s);
      assert BlackSpecs(ls) == BlackSpecs(s) + [RunSpec(x, COLOR_BLACK)];
      SpecCellsSnoc(BlackSpecs(s), RunSpec(x, COLOR_BLACK), COLOR_EMPTY, false);
    }
  }

  /** The blocks of a line and one empty cell between each two of them take no more than the
      line, plus one when the line ends filled (no empty cell after its last block). */
  lemma {:induction false} BlocksFitLine(line: seq<bool>)
    ensures Filled(line) + |RunLengths(line)| <= |line| + (if |line| > 0 && line[|line| - 1] then 1 else 0)
    decreases |line|
  {
    if |line| > 0 {
      var s, c := line[..|line| - 1], line[|line| - 1];
      assert s + [c] == line;
      BlocksFitLine(s);
      RunLengthsSnoc(s, c);
    }
  }

  /** The clue the encoder writes for a line passes the solver's fit check for a line of that
      length: its blocks already lie in the line, apart from each other. */
  lemma LineFits(line: seq<bool>, pos: int, width: nat, height: nat)
    requires |line| == LineLength(pos, width, height)
    ensures Fits(LineClue(line), false, pos, width, height)
  {
    var ls := RunLengths(line);
    LineRuns(line);
    RunLengthsCount(line);
    BlocksFitLine(line);
    BlackCells(ls);
    MinLengthIsSpecCells(BlackSpecs(ls));
    FitsIffSetUp(LineClue(line), false, pos, width, height);
  }

  /** Every clue the encoder writes for a grid fits its line: columns first, then rows. */
  lemma GridFits(g: seq<seq<bool>>, width: nat, height: nat)
    requires Rectangular(g, width, height)
    ensures GroupFits(Clues(Columns(g, width)) + Clues(g), false, 0, width, height)
  {
    var cs, rs := Clues(Columns(g, width)), Clues(g);
    forall k | 0 <= k < |cs| ensures Fits(cs[k], false, 0 + k, width, height) {
      LineFits(Columns(g, width)[k], k, width, height);
    }
    forall k | 0 <= k < |rs| ensures Fits(rs[k], false, width + k, width, height) {
      LineFits(g[k], width + k, width, height);
    }
    GroupFitsConcat(cs, rs, false, 0, width, height);
  }

  /** The puzzle the encoder writes for a grid is read back by the solver with the grid's
      dimensions, in black and white, with the clues of its columns and then of its rows: each
      of them passes the solver's fit check. */
  lemma ConvertReadsBack(g: seq<seq<bool>>, width: nat, height: nat)
    requires Rectangular(g, width, height) && width >= 1 && height >= 1
    ensures GroupFits(Clues(Columns(g, width)) + Clues(g), false, 0, width, height)
    ensures ReadPuzzle(PuzzleString(width, height, false, Clues(Columns(g, width)), Clues(g)))
      == Ok(Puzzle(width, height, false, Clues(Columns(g, width)) + Clues(g)))
  {
    GridFits(g, width, height);
    ReadPuzzleString(width, height, false, Clues(Columns(g, width)), Clues(g));
  }
}
