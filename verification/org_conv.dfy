/** The grid encoder `nonogram_org_conv` (src/nonogram_org_conv_functions.js): from a grid `E` of
    `C` rows and `D` columns, whose cells hold 0 when empty and the 1-based index of their colour
    otherwise, it lists for every row (`N`) and every column (`O`) the maximal blocks of equal
    non-zero cells as `[length, value]` entries, and writes them as a paragraph in the text the
    coloured solver reads. How `E` and the palette `H` are decoded from the page is not part of
    this model. */
module OrgConv {
  import opened Results
  import opened Decimal
  import opened ClueSetup
  import opened ClueText
  import opened PuzzleText
  import opened RunLength
  import opened Seqs

  /** `rows` lines of `columns` cells. */
  predicate IsGrid(e: seq<seq<int>>, rows: nat, columns: nat) {
    |e| == rows && forall w :: 0 <= w < |e| ==> |e[w]| == columns
  }

  /** The grid before any cell is painted (src/nonogram_org_conv_functions.js:8-12). */
  function ZeroGrid(rows: nat, columns: nat): (e: seq<seq<int>>)
    ensures IsGrid(e, rows, columns)
    ensures forall w, v :: 0 <= w < rows && 0 <= v < columns ==> e[w][v] == 0
  {
    seq(rows, w => seq(columns, v => 0))
  }

  /** An entry `[length, value]` of `N` or `O`. */
  datatype Entry = Entry(len: nat, value: int)

  /** The blocks among `bs` that hold a positive value, in order. */
  function PositiveBlocks(bs: seq<Block<int>>): seq<Block<int>> {
    if |bs| == 0 then []
    else
      var b := bs[|bs| - 1];
      PositiveBlocks(bs[..|bs| - 1]) + (if b.value > 0 then [b] else [])
  }

  function EntriesOf(bs: seq<Block<int>>): (es: seq<Entry>)
    ensures |es| == |bs| && forall k :: 0 <= k < |bs| ==> es[k] == Entry(bs[k].len, bs[k].value)
  {
    seq(|bs|, k requires 0 <= k < |bs| => Entry(bs[k].len, bs[k].value))
  }

  /** The entries of a line: one per maximal block of equal positive cells, left to right.
      Every entry is at least one cell long and holds a positive value: empty cells never give
      an entry. */
  function Entries(line: seq<int>): (es: seq<Entry>)
    ensures forall k :: 0 <= k < |es| ==> es[k].len >= 1 && es[k].value > 0
  {
    var pb := PositiveBlocks(Blocks(line));
    PositiveBlocksFacts(line, pb);
    EntriesOf(pb)
  }

  lemma PositiveSnoc(bs: seq<Block<int>>, b: Block<int>)
    ensures PositiveBlocks(bs + [b]) == PositiveBlocks(bs) + (if b.value > 0 then [b] else [])
  {
    assert (bs + [b])[..|bs|] == bs;
  }

  lemma EntriesSnoc(bs: seq<Block<int>>, b: Block<int>)
    ensures EntriesOf(bs + [b]) == EntriesOf(bs) + [Entry(b.len, b.value)]
  {
  }

  /** A maximal run `line[start..v]` of equal cells, starting where the cell before differs,
      adds its entry when its value is positive. */
  lemma ScanStep(line: seq<int>, start: nat, v: nat)
    requires start < v <= |line| && forall k :: start <= k < v ==> line[k] == line[start]
    requires start == 0 || line[start - 1] != line[start]
    ensures Entries(line[..v]) == Entries(line[..start]) + (if line[start] > 0 then [Entry(v - start, line[start])] else [])
  {
    var z := line[start];
    var p := line[..start];
    RunSlice(line, start, v);
    assert |p| == start && (|p| == 0 || p[|p| - 1] != z);
    BlocksAppendRun(p, z, v - start);
    var b := Block(start, v - start, z);
    assert Blocks(line[..v]) == Blocks(p) + [b];
    PositiveSnoc(Blocks(p), b);
    if z > 0 {
      EntriesSnoc(PositiveBlocks(Blocks(p)), b);
    }
  }

  /** The scan of one line (src/nonogram_org_conv_functions.js:36-42 for a row, 46-52 for a
      column): from each unscanned cell, the inner loop runs to the end of the run of its value,
      and the run is listed when its value is positive. */
  method LineEntries(line: seq<int>) returns (es: seq<Entry>)
    ensures es == Entries(line)
  {
    var n := |line|;
    es := [];
    var v := 0;
    while v < n
      invariant 0 <= v <= n
      invariant 0 < v < n ==> line[v - 1] != line[v]
      invariant es == Entries(line[..v])
    {
      var start := v;
      var z := line[v];
      while v < n && line[v] == z
        invariant start <= v <= n && z == line[start]
        invariant forall k :: start <= k < v ==> line[k] == z
      {
        v := v + 1;
      }
      ScanStep(line, start, v);
      if 0 < v - start && 0 < z {
        es := es + [Entry(v - start, z)];
      }
    }
    assert line[..n] == line;
  }

  /** Column `v` of a grid, top to bottom. */
  function Column(e: seq<seq<int>>, v: nat): (c: seq<int>)
    requires forall w :: 0 <= w < |e| ==> v < |e[w]|
    ensures |c| == |e| && forall w :: 0 <= w < |e| ==> c[w] == e[w][v]
  {
    seq(|e|, w requires 0 <= w < |e| => e[w][v])
  }

  /** The row lists `N` and the column lists `O` (src/nonogram_org_conv_functions.js:34-53). */
  method Scan(e: seq<seq<int>>, rows: nat, columns: nat) returns (n: seq<seq<Entry>>, o: seq<seq<Entry>>)
    requires IsGrid(e, rows, columns)
    ensures |n| == rows && forall w :: 0 <= w < rows ==> n[w] == Entries(e[w])
    ensures |o| == columns && forall v :: 0 <= v < columns ==> o[v] == Entries(Column(e, v))
  {
    n := [];
    var w := 0;
    while w < rows
      invariant 0 <= w <= rows && |n| == w
      invariant forall k :: 0 <= k < w ==> n[k] == Entries(e[k])
    {
      var es := LineEntries(e[w]);
      n := n + [es];
      w := w + 1;
    }
    o := [];
    var v := 0;
    while v < columns
      invariant 0 <= v <= columns && |o| == v
      invariant forall k :: 0 <= k < v ==> o[k] == Entries(Column(e, k))
    {
      var es := LineEntries(Column(e, v));
      o := o + [es];
      v := v + 1;
    }
  }

  /** A block of a run-length encoding lies in the line, holds its value on every cell, and is
      maximal: the cells just outside it hold other values. */
  lemma BlockFacts(bs: seq<Block<int>>, line: seq<int>, i: nat)
    requires Encodes(bs, line) && i < |bs|
    ensures bs[i].len >= 1 && End(bs[i]) <= |line|
    ensures forall c :: bs[i].start <= c < End(bs[i]) ==> line[c] == bs[i].value
    ensures bs[i].start > 0 ==> line[bs[i].start - 1] != bs[i].value
    ensures End(bs[i]) < |line| ==> line[End(bs[i])] != bs[i].value
  {
    assert Holds(bs, line, i);
    EndsAtChange(bs, line, i);
    if i > 0 {
      assert Follows(bs, i) && Holds(bs, line, i - 1);
      assert line[bs[i].start - 1] == bs[i - 1].value;
    }
  }

  /** What the positive blocks of the first `n` blocks of an encoding keep: each is one of the
      blocks and positive; two in a row are in order and, when they touch, hold different values;
      and the last one is the last block or ends no later than the last block starts. */
  predicate Spaced(pb: seq<Block<int>>, bs: seq<Block<int>>, n: nat)
    requires n <= |bs|
  {
    && (forall k :: 0 <= k < |pb| ==> pb[k] in bs && pb[k].value > 0)
    && (forall k :: 0 <= k < |pb| - 1 ==> End(pb[k]) <= pb[k + 1].start)
    && (forall k :: 0 <= k < |pb| - 1 ==> End(pb[k]) == pb[k + 1].start ==> pb[k].value != pb[k + 1].value)
    && (|pb| > 0 ==> n > 0 && (pb[|pb| - 1] == bs[n - 1] || End(pb[|pb| - 1]) <= bs[n - 1].start))
  }

  lemma {:induction false} SpacedPrefix(bs: seq<Block<int>>, line: seq<int>, n: nat)
    requires Encodes(bs, line) && n <= |bs|
    ensures Spaced(PositiveBlocks(bs[..n]), bs, n)
    decreases n
  {
    if n > 0 {
      SpacedPrefix(bs, line, n - 1);
      SpacedStep(bs, line, n);
    }
  }

  lemma SpacedStep(bs: seq<Block<int>>, line: seq<int>, n: nat)
    requires Encodes(bs, line) && 0 < n <= |bs|
    requires Spaced(PositiveBlocks(bs[..n - 1]), bs, n - 1)
    ensures Spaced(PositiveBlocks(bs[..n]), bs, n)
  {
    var pb := PositiveBlocks(bs[..n - 1]);
    var b := bs[n - 1];
    PositivePrefix(bs, n);
    Neighbours(bs, line, n);
    if b.value > 0 {
      SpacedAppend(pb, bs, n);
    } else {
      SpacedKeep(pb, bs, n);
    }
  }

  lemma PositivePrefix(bs: seq<Block<int>>, n: nat)
    requires 0 < n <= |bs|
    ensures PositiveBlocks(bs[..n]) == PositiveBlocks(bs[..n - 1]) + (if bs[n - 1].value > 0 then [bs[n - 1]] else [])
  {
    assert bs[..n] == bs[..n - 1] + [bs[n - 1]];
    PositiveSnoc(bs[..n - 1], bs[n - 1]);
  }

  /** Block `n - 1` of an encoding starts where the non-empty block before it ends, with another
      value. */
  lemma Neighbours(bs: seq<Block<int>>, line: seq<int>, n: nat)
    requires Encodes(bs, line) && 0 < n <= |bs|
    ensures n > 1 ==> bs[n - 1].start == End(bs[n - 2]) && bs[n - 2].len >= 1 && bs[n - 1].value != bs[n - 2].value
  {
    if n > 1 {
      assert Follows(bs, n - 1) && Holds(bs, line, n - 2);
    }
  }

  /** A positive block after the last: it touches the last positive block only when that block
      is its neighbour, which holds another value. */
  lemma SpacedAppend(pb: seq<Block<int>>, bs: seq<Block<int>>, n: nat)
    requires 0 < n <= |bs| && Spaced(pb, bs, n - 1) && bs[n - 1].value > 0
    requires n > 1 ==> bs[n - 1].start == End(bs[n - 2]) && bs[n - 2].len >= 1 && bs[n - 1].value != bs[n - 2].value
    ensures Spaced(pb + [bs[n - 1]], bs, n)
  {
    var q := pb + [bs[n - 1]];
    forall k | 0 <= k < |q| ensures q[k] in bs && q[k].value > 0 {
      if k < |pb| { assert q[k] == pb[k]; }
    }
    forall k | 0 <= k < |q| - 1
      ensures End(q[k]) <= q[k + 1].start
      ensures End(q[k]) == q[k + 1].start ==> q[k].value != q[k + 1].value
    {
      if k < |pb| - 1 {
        assert q[k] == pb[k] && q[k + 1] == pb[k + 1];
      } else {
        assert q[k] == pb[|pb| - 1] && q[k + 1] == bs[n - 1];
      }
    }
  }

  /** A block that is not positive leaves the positive blocks as they are. */
  lemma SpacedKeep(pb: seq<Block<int>>, bs: seq<Block<int>>, n: nat)
    requires 0 < n <= |bs| && Spaced(pb, bs, n - 1)
    requires n > 1 ==> bs[n - 1].start == End(bs[n - 2]) && bs[n - 2].len >= 1
    ensures Spaced(pb, bs, n)
  {
  }

  /** `b` is a maximal block of one positive value of `line`. */
  predicate MaximalPositive(line: seq<int>, b: Block<int>) {
    && b.len >= 1 && b.value > 0 && End(b) <= |line|
    && (forall c :: b.start <= c < End(b) ==> line[c] == b.value)
    && (b.start > 0 ==> line[b.start - 1] != b.value)
    && (End(b) < |line| ==> line[End(b)] != b.value)
  }

  /** The positive blocks of a line: each is a maximal block of one positive value; two in a row
      are in order, and when they touch they hold different values, so no two consecutive
      entries describe adjacent cells of one value. */
  lemma PositiveBlocksFacts(line: seq<int>, pb: seq<Block<int>>)
    requires pb == PositiveBlocks(Blocks(line))
    ensures forall k :: 0 <= k < |pb| ==> MaximalPositive(line, pb[k])
    ensures forall k :: 0 <= k < |pb| - 1 ==> End(pb[k]) <= pb[k + 1].start
    ensures forall k :: 0 <= k < |pb| - 1 ==> End(pb[k]) == pb[k + 1].start ==> pb[k].value != pb[k + 1].value
  {
    var bs := Blocks(line);
    BlocksEncode(line);
    SpacedWhole(bs, line);
    SpacedMaximal(pb, bs, line);
  }

  lemma SpacedWhole(bs: seq<Block<int>>, line: seq<int>)
    requires Encodes(bs, line)
    ensures Spaced(PositiveBlocks(bs), bs, |bs|)
  {
    SpacedPrefix(bs, line, |bs|);
    assert bs[..|bs|] == bs;
  }

  /** Positive blocks drawn from the encoding of a line are maximal blocks of the line. */
  lemma SpacedMaximal(pb: seq<Block<int>>, bs: seq<Block<int>>, line: seq<int>)
    requires Encodes(bs, line) && Spaced(pb, bs, |bs|)
    ensures forall k :: 0 <= k < |pb| ==> MaximalPositive(line, pb[k])
  {
    forall k | 0 <= k < |pb| ensures MaximalPositive(line, pb[k]) {
      var i :| 0 <= i < |bs| && bs[i] == pb[k];
      BlockFacts(bs, line, i);
    }
  }

  /** The entries of any run-length encoding of a line, zero and negative blocks left out, are
      the line's entries. */
  lemma EntriesOfEncoding(line: seq<int>, bs: seq<Block<int>>)
    requires Encodes(bs, line)
    ensures Entries(line) == EntriesOf(PositiveBlocks(bs))
  {
    BlocksEncode(line);
    EncodingUnique(Blocks(line), bs, line);
  }

  /** A line of empty cells has no entries. */
  lemma {:induction false} NoEntriesWhenEmpty(line: seq<int>)
    requires forall c :: 0 <= c < |line| ==> line[c] == 0
    ensures PositiveBlocks(Blocks(line)) == [] && Entries(line) == []
    decreases |line|
  {
    if |line| > 0 {
      var s := line[..|line| - 1];
      NoEntriesWhenEmpty(s);
      assert s + [0] == line;
      BlocksSnoc(s, 0);
      var p := Blocks(s);
      if |p| > 0 && p[|p| - 1].value == 0 {
        var f := p[..|p| - 1];
        var l := p[|p| - 1];
        assert f + [l] == p;
        PositiveSnoc(f, l);
        PositiveSnoc(f, l.(len := l.len + 1));
      } else {
        PositiveSnoc(p, Block(|s|, 1, 0));
      }
    }
  }

  /** Nothing is painted on a fresh grid: every row and every column has no entries. */
  lemma ZeroGridEntries(rows: nat, columns: nat)
    ensures forall w :: 0 <= w < rows ==> Entries(ZeroGrid(rows, columns)[w]) == []
    ensures forall v :: 0 <= v < columns ==> Entries(Column(ZeroGrid(rows, columns), v)) == []
  {
    var e := ZeroGrid(rows, columns);
    forall w | 0 <= w < rows ensures Entries(e[w]) == [] {
      NoEntriesWhenEmpty(e[w]);
    }
    forall v | 0 <= v < columns ensures Entries(Column(e, v)) == [] {
      NoEntriesWhenEmpty(Column(e, v));
    }
  }

  /** The symbols the solver takes for colours, in order: the ten digits, the lower-case
      letters, the upper-case letters. */
  const COLOR_SYMBOLS: nat := 62

  /** The symbol of colour index `i`, counted from 0. */
  function ColorSymbol(i: nat): (c: char)
    requires i < COLOR_SYMBOLS
    ensures IsAlnum(c)
  {
    if i < 10 then ('0' as int + i) as char
    else if i < 36 then ('a' as int + i - 10) as char
    else ('A' as int + i - 36) as char
  }

  /** Different colours get different symbols. */
  lemma ColorSymbolInjective(i: nat, j: nat)
    requires i < COLOR_SYMBOLS && j < COLOR_SYMBOLS
    ensures ColorSymbol(i) == ColorSymbol(j) <==> i == j
  {
  }

  /** How a colour is written: as the encoder writes it, the colour index from 0 in decimal
      (src/nonogram_org_conv_functions.js:61, 76); corrected, as the one alphanumeric symbol the
      solver reads for a colour (src/nonogram.c:329-343). */
  datatype Style = AsWritten | Corrected

  /** Entries that can be written: each at least one cell long with a positive value, and, for
      a corrected coloured clue, a colour that has a symbol. */
  predicate Printable(es: seq<Entry>, colored: bool, style: Style) {
    forall k :: 0 <= k < |es| ==> es[k].len >= 1 && es[k].value >= 1 && (colored && style == Corrected ==> es[k].value <= COLOR_SYMBOLS)
  }

  /** One entry (src/nonogram_org_conv_functions.js:61, 76): its length, and in coloured mode a
      `-` and its colour. */
  function EntryText(e: Entry, colored: bool, style: Style): string
    requires e.value >= 1 && (colored && style == Corrected ==> e.value <= COLOR_SYMBOLS)
  {
    Digits(e.len) + (if !colored then [] else [SEPARATOR_COLOR] + (if style == AsWritten then Digits(e.value - 1) else [ColorSymbol(e.value - 1)]))
  }

  /** The parts joined by `sep`. */
  function Join(parts: seq<string>, sep: string): string {
    if |parts| == 0 then [] else parts[0] + (if |parts| == 1 then [] else sep + Join(parts[1..], sep))
  }

  /** The texts of the entries of a clue, in order. */
  function EntryTexts(es: seq<Entry>, colored: bool, style: Style): (ps: seq<string>)
    requires Printable(es, colored, style)
  {
    seq(|es|, k requires 0 <= k < |es| => EntryText(es[k], colored, style))
  }

  /** One clue (src/nonogram_org_conv_functions.js:57-67): its entries joined by commas between
      double quotes, or `0` when it has none. */
  function QuotedClue(es: seq<Entry>, colored: bool, style: Style): string
    requires Printable(es, colored, style)
  {
    [DELIMITER_CLUE] + (if |es| == 0 then ['0'] else Join(EntryTexts(es, colored, style), [SEPARATOR_SETS])) + [DELIMITER_CLUE]
  }

  /** The clues of a group joined by commas (src/nonogram_org_conv_functions.js:55-68 for the
      columns, 70-83 for the rows). */
  function GroupLine(lines: seq<seq<Entry>>, colored: bool, style: Style): string
    requires forall k :: 0 <= k < |lines| ==> Printable(lines[k], colored, style)
  {
    Join(seq(|lines|, k requires 0 <= k < |lines| => QuotedClue(lines[k], colored, style)), [SEPARATOR_CLUES])
  }

  /** The lines of the paragraph (src/nonogram_org_conv_functions.js:54-84): the number of
      columns `D`, the number of rows `C`, the colour flag, which is 1 exactly when the palette
      has more than one colour, the column clues and the row clues. */
  function PageLines(columns: seq<seq<Entry>>, rows: seq<seq<Entry>>, colored: bool, style: Style): seq<string>
    requires forall k :: 0 <= k < |columns| ==> Printable(columns[k], colored, style)
    requires forall k :: 0 <= k < |rows| ==> Printable(rows[k], colored, style)
  {
    [Digits(|columns|), Digits(|rows|), Digits(Flag(colored)), GroupLine(columns, colored, style), GroupLine(rows, colored, style)]
  }

  /** The HTML paragraph the encoder returns: the lines separated by `<br/>`. */
  function Paragraph(ls: seq<string>): string {
    "<p>" + Join(ls, "<br/>") + "</p>"
  }

  /** The same lines as the text file the solver reads: each `<br/>` a newline, and a newline
      after the last line. */
  function TextLines(ls: seq<string>): string {
    Join(ls, [SEPARATOR_LINES]) + [SEPARATOR_LINES]
  }

  /** The entries of the rows and of the columns of a grid. */
  function RowEntries(e: seq<seq<int>>): (n: seq<seq<Entry>>)
    ensures |n| == |e| && forall w :: 0 <= w < |e| ==> n[w] == Entries(e[w])
  {
    seq(|e|, w requires 0 <= w < |e| => Entries(e[w]))
  }

  function ColumnEntries(e: seq<seq<int>>, columns: nat): (o: seq<seq<Entry>>)
    requires forall w :: 0 <= w < |e| ==> |e[w]| == columns
    ensures |o| == columns && forall v :: 0 <= v < columns ==> o[v] == Entries(Column(e, v))
  {
    seq(columns, v requires 0 <= v < columns => Entries(Column(e, v)))
  }

  /** Every colour of the lines has a symbol. */
  predicate ColorsFit(lines: seq<seq<Entry>>) {
    forall k, j :: 0 <= k < |lines| && 0 <= j < |lines[k]| ==> lines[k][j].value <= COLOR_SYMBOLS
  }

  /** Lines of entries that are each at least one cell long with a positive value can be written
      as the encoder writes them, and, when their colours fit, as corrected. */
  lemma LinesPrintable(lines: seq<seq<Entry>>, colored: bool, style: Style)
    requires forall k, j :: 0 <= k < |lines| && 0 <= j < |lines[k]| ==> lines[k][j].len >= 1 && lines[k][j].value >= 1
    requires style == Corrected && colored ==> ColorsFit(lines)
    ensures forall k :: 0 <= k < |lines| ==> Printable(lines[k], colored, style)
  {
  }

  datatype OrgError = TooManyColors

  /** The whole encoder on a grid of `C` rows and `D` columns and a palette of `colors` colours
      (src/nonogram_org_conv_functions.js:34-85). As written it always returns its paragraph;
      corrected, it refuses a coloured grid with a colour beyond the symbols. */
  method Convert(e: seq<seq<int>>, rows: nat, columns: nat, colors: nat, style: Style) returns (r: Result<string, OrgError>)
    requires IsGrid(e, rows, columns)
    ensures r.Err? <==> (style == Corrected && colors > 1 && !(ColorsFit(ColumnEntries(e, columns)) && ColorsFit(RowEntries(e))))
    ensures r.Ok? ==> (
      && (forall k :: 0 <= k < columns ==> Printable(ColumnEntries(e, columns)[k], colors > 1, style))
      && (forall k :: 0 <= k < rows ==> Printable(RowEntries(e)[k], colors > 1, style))
      && r.value == Paragraph(PageLines(ColumnEntries(e, columns), RowEntries(e), colors > 1, style)))
  {
    var n, o := Scan(e, rows, columns);
    assert n == RowEntries(e) && o == ColumnEntries(e, columns);
    var colored := colors > 1;
    if style == Corrected && colored && !(ColorsFit(o) && ColorsFit(n)) {
      return Err(TooManyColors);
    }
    LinesPrintable(o, colored, style);
    LinesPrintable(n, colored, style);
    r := Ok(Paragraph(PageLines(o, n, colored, style)));
  }

  /** The runs a corrected clue stands for: one per entry, with the entry's colour symbol in
      coloured mode and black otherwise. */
  function ClueRuns(es: seq<Entry>, colored: bool): seq<RunSpec>
    requires Printable(es, colored, Corrected)
  {
    seq(|es|, k requires 0 <= k < |es| => RunSpec(es[k].len, if colored then ColorSymbol(es[k].value - 1) else COLOR_BLACK))
  }

  /** The tokens of a corrected clue: those of its runs, or a single zero token for a line
      without entries. */
  function ClueTokens(es: seq<Entry>, colored: bool): (ts: seq<Token>)
    requires Printable(es, colored, Corrected)
    ensures Writable(ts, colored)
  {
    if |es| == 0 then [Token(0, COLOR_BLACK)] else TokensOf(ClueRuns(es, colored))
  }

  /** The clues of a group of lines. */
  function ClueGroup(lines: seq<seq<Entry>>, colored: bool): (cs: seq<seq<Token>>)
    requires forall k :: 0 <= k < |lines| ==> Printable(lines[k], colored, Corrected)
    ensures |cs| == |lines| && forall k :: 0 <= k < |lines| ==> Writable(cs[k], colored)
  {
    seq(|lines|, k requires 0 <= k < |lines| => ClueTokens(lines[k], colored))
  }

  /** A join with more than one part is its first part, the separator and the join of the rest. */
  lemma JoinFront(parts: seq<string>, sep: string)
    requires |parts| > 1
    ensures Join(parts, sep) == (parts[0] + sep) + Join(parts[1..], sep)
  {
  }

  /** The corrected text of an entry is the text of its token. */
  lemma EntryToken(e: Entry, colored: bool, t: Token)
    requires e.len >= 1 && e.value >= 1 && (colored ==> e.value <= COLOR_SYMBOLS)
    requires t == Token(e.len, if colored then ColorSymbol(e.value - 1) else COLOR_BLACK)
    ensures EntryText(e, colored, Corrected) == TokenText(t, colored)
  {
    if colored {
      assert [SEPARATOR_COLOR] + [t.color] == [SEPARATOR_COLOR, t.color];
    }
  }

  /** The corrected entries of a clue, with the closing double quote, are the token text the
      solver's reader takes. */
  lemma {:induction false} EntriesSets(es: seq<Entry>, colored: bool)
    requires |es| > 0 && Printable(es, colored, Corrected)
    ensures Writable(TokensOf(ClueRuns(es, colored)), colored)
    ensures Join(EntryTexts(es, colored, Corrected), [SEPARATOR_SETS]) + [DELIMITER_CLUE] == SetsText(TokensOf(ClueRuns(es, colored)), colored)
    decreases |es|
  {
    var ts := TokensOf(ClueRuns(es, colored));
    var ps := EntryTexts(es, colored, Corrected);
    EntryToken(es[0], colored, ts[0]);
    if |es| > 1 {
      EntriesSets(es[1..], colored);
      EntriesTail(es, colored);
      JoinFront(ps, [SEPARATOR_SETS]);
      SetsTextMore(ts, colored);
      Regroup(ps[0], [SEPARATOR_SETS], Join(ps[1..], [SEPARATOR_SETS]), [DELIMITER_CLUE]);
    }
  }

  /** The entry texts and the tokens of a clue without its first entry are the tails of the
      clue's. */
  lemma EntriesTail(es: seq<Entry>, colored: bool)
    requires |es| > 1 && Printable(es, colored, Corrected)
    ensures EntryTexts(es, colored, Corrected)[1..] == EntryTexts(es[1..], colored, Corrected)
    ensures TokensOf(ClueRuns(es, colored))[1..] == TokensOf(ClueRuns(es[1..], colored))
  {
  }

  /** A corrected clue is the clue text of its tokens. */
  lemma QuotedClueText(es: seq<Entry>, colored: bool)
    requires Printable(es, colored, Corrected)
    ensures QuotedClue(es, colored, Corrected) == ClueString(ClueTokens(es, colored), colored)
  {
    if |es| > 0 {
      EntriesSets(es, colored);
      var j := Join(EntryTexts(es, colored, Corrected), [SEPARATOR_SETS]);
      assert [DELIMITER_CLUE] + j + [DELIMITER_CLUE] == [DELIMITER_CLUE] + (j + [DELIMITER_CLUE]);
    }
  }

  /** A corrected group line, ended by its newline, is the group text of its clues. */
  lemma {:induction false} GroupLineText(lines: seq<seq<Entry>>, colored: bool)
    requires |lines| > 0 && forall k :: 0 <= k < |lines| ==> Printable(lines[k], colored, Corrected)
    ensures GroupLine(lines, colored, Corrected) + [SEPARATOR_LINES] == GroupText(ClueGroup(lines, colored), colored)
    decreases |lines|
  {
    var qs := QuotedClues(lines, colored);
    var cs := ClueGroup(lines, colored);
    QuotedClueText(lines[0], colored);
    if |lines| > 1 {
      GroupLineText(lines[1..], colored);
      GroupTail(lines, colored);
      JoinFront(qs, [SEPARATOR_CLUES]);
      GroupTextFront(cs, colored);
      Regroup(qs[0], [SEPARATOR_CLUES], Join(qs[1..], [SEPARATOR_CLUES]), [SEPARATOR_LINES]);
    }
  }

  /** The corrected clues of a group, each as written. */
  function QuotedClues(lines: seq<seq<Entry>>, colored: bool): (qs: seq<string>)
    requires forall k :: 0 <= k < |lines| ==> Printable(lines[k], colored, Corrected)
    ensures Join(qs, [SEPARATOR_CLUES]) == GroupLine(lines, colored, Corrected)
    ensures |qs| == |lines| && forall k :: 0 <= k < |lines| ==> qs[k] == QuotedClue(lines[k], colored, Corrected)
  {
    seq(|lines|, k requires 0 <= k < |lines| => QuotedClue(lines[k], colored, Corrected))
  }

  /** The written clues and the tokens of a group without its first line are the tails of the
      group's. */
  lemma GroupTail(lines: seq<seq<Entry>>, colored: bool)
    requires |lines| > 1 && forall k :: 0 <= k < |lines| ==> Printable(lines[k], colored, Corrected)
    ensures QuotedClues(lines, colored)[1..] == QuotedClues(lines[1..], colored)
    ensures ClueGroup(lines, colored)[1..] == ClueGroup(lines[1..], colored)
  {
  }

  /** Five lines joined by newlines, with a final newline. */
  lemma TextLinesFive(a: string, b: string, c: string, d: string, e: string)
    ensures TextLines([a, b, c, d, e]) == (a + [SEPARATOR_LINES]) + (b + [SEPARATOR_LINES]) + (c + [SEPARATOR_LINES]) + (d + [SEPARATOR_LINES]) + (e + [SEPARATOR_LINES])
  {
    var ls := [a, b, c, d, e];
    var n := [SEPARATOR_LINES];
    assert ls[1..][1..] == [c, d, e];
    assert ls[1..][1..][1..] == [d, e];
    assert ls[1..][1..][1..][1..] == [e];
    assert Join([d, e], n) == d + n + e;
    assert Join([c, d, e], n) == c + n + (d + n + e);
    assert Join([b, c, d, e], n) == b + n + (c + n + (d + n + e));
    assert Join(ls, n) == a + n + (b + n + (c + n + (d + n + e)));
  }

  /** The corrected page, read as a text file, is the puzzle text of its clues. */
  lemma PageText(columns: seq<seq<Entry>>, rows: seq<seq<Entry>>, colored: bool)
    requires |columns| > 0 && forall k :: 0 <= k < |columns| ==> Printable(columns[k], colored, Corrected)
    requires |rows| > 0 && forall k :: 0 <= k < |rows| ==> Printable(rows[k], colored, Corrected)
    ensures TextLines(PageLines(columns, rows, colored, Corrected))
      == PuzzleString(|columns|, |rows|, colored, ClueGroup(columns, colored), ClueGroup(rows, colored))
  {
    GroupLineText(columns, colored);
    GroupLineText(rows, colored);
    TextLinesFive(Digits(|columns|), Digits(|rows|), Digits(Flag(colored)), GroupLine(columns, colored, Corrected), GroupLine(rows, colored, Corrected));
  }

  /** What the solver makes of a corrected page: it reads back the grid's size, its colour mode
      and, in order, the clues of its columns and of its rows, exactly when every clue passes its
      fit check, and otherwise refuses a clue as incompatible. Every clue passes when the page is
      coloured or when the grid holds one colour only, as it does when the palette has one
      colour. */
  lemma PageReadsBack(e: seq<seq<int>>, rows: nat, columns: nat, colored: bool)
    requires IsGrid(e, rows, columns) && rows >= 1 && columns >= 1
    requires colored ==> ColorsFit(ColumnEntries(e, columns)) && ColorsFit(RowEntries(e))
    ensures forall k :: 0 <= k < columns ==> Printable(ColumnEntries(e, columns)[k], colored, Corrected)
    ensures forall k :: 0 <= k < rows ==> Printable(RowEntries(e)[k], colored, Corrected)
    ensures colored || OneColor(e) ==> GroupFits(ClueGroup(ColumnEntries(e, columns), colored) + ClueGroup(RowEntries(e), colored), colored, 0, columns, rows)
    ensures GroupFits(ClueGroup(ColumnEntries(e, columns), colored) + ClueGroup(RowEntries(e), colored), colored, 0, columns, rows)
      ==> (ReadPuzzle(TextLines(PageLines(ColumnEntries(e, columns), RowEntries(e), colored, Corrected)))
           == Ok(Puzzle(columns, rows, colored, ClueGroup(ColumnEntries(e, columns), colored) + ClueGroup(RowEntries(e), colored))))
    ensures !GroupFits(ClueGroup(ColumnEntries(e, columns), colored) + ClueGroup(RowEntries(e), colored), colored, 0, columns, rows)
      ==> var r := ReadPuzzle(TextLines(PageLines(ColumnEntries(e, columns), RowEntries(e), colored, Corrected)));
        r.Err? && r.error.Incompatible?
  {
    var o, n := ColumnEntries(e, columns), RowEntries(e);
    LinesPrintable(o, colored, Corrected);
    LinesPrintable(n, colored, Corrected);
    PageText(o, n, colored);
    ReadPuzzleString(columns, rows, colored, ClueGroup(o, colored), ClueGroup(n, colored));
    if colored || OneColor(e) {
      GridFits(e, rows, columns, colored);
    }
  }

  /** Every cell of the grid is empty or holds colour 1. */
  predicate OneColor(e: seq<seq<int>>) {
    forall w, v :: 0 <= w < |e| && 0 <= v < |e[w]| ==> e[w][v] <= 1
  }

  /** Every corrected clue of a coloured page, or of a page of one colour, fits its line. */
  lemma GridFits(e: seq<seq<int>>, rows: nat, columns: nat, colored: bool)
    requires IsGrid(e, rows, columns)
    requires colored ==> ColorsFit(ColumnEntries(e, columns)) && ColorsFit(RowEntries(e))
    requires colored || OneColor(e)
    ensures forall k :: 0 <= k < columns ==> Printable(ColumnEntries(e, columns)[k], colored, Corrected)
    ensures forall k :: 0 <= k < rows ==> Printable(RowEntries(e)[k], colored, Corrected)
    ensures GroupFits(ClueGroup(ColumnEntries(e, columns), colored) + ClueGroup(RowEntries(e), colored), colored, 0, columns, rows)
  {
    var o, n := ColumnEntries(e, columns), RowEntries(e);
    LinesPrintable(o, colored, Corrected);
    LinesPrintable(n, colored, Corrected);
    var co, cn := ClueGroup(o, colored), ClueGroup(n, colored);
    forall k | 0 <= k < |co| ensures Fits(co[k], colored, 0 + k, columns, rows) {
      var line := Column(e, k);
      assert !colored ==> forall c :: 0 <= c < |line| ==> line[c] <= 1;
      LineFits(line, colored, k, columns, rows);
    }
    forall k | 0 <= k < |cn| ensures Fits(cn[k], colored, columns + k, columns, rows) {
      var line := e[k];
      assert !colored ==> forall c :: 0 <= c < |line| ==> line[c] <= 1;
      LineFits(line, colored, columns + k, columns, rows);
    }
    GroupFitsConcat(co, cn, colored, 0, columns, rows);
  }

  /** The corrected clue of a line passes the solver's fit check for a line of that length, in
      coloured mode and in black and white when the line holds one colour. */
  lemma LineFits(line: seq<int>, colored: bool, pos: int, width: nat, height: nat)
    requires |line| == LineLength(pos, width, height)
    requires Printable(Entries(line), colored, Corrected)
    requires !colored ==> forall c :: 0 <= c < |line| ==> line[c] <= 1
    ensures Fits(ClueTokens(Entries(line), colored), colored, pos, width, height)
  {
    ClueTokensRuns(Entries(line), colored);
    EntriesLaidOut(line, colored);
    FitsIffSetUp(ClueTokens(Entries(line), colored), colored, pos, width, height);
  }

  /** The runs of a line's corrected clue fit the line: each entry's block is where its run can
      start, since two blocks of one symbol never touch. */
  lemma EntriesLaidOut(line: seq<int>, colored: bool)
    requires Printable(Entries(line), colored, Corrected)
    requires !colored ==> forall c :: 0 <= c < |line| ==> line[c] <= 1
    ensures MinLength(WithGaps(ClueRuns(Entries(line), colored))) <= |line|
  {
    var pb := PositiveBlocks(Blocks(line));
    PositiveBlocksFacts(line, pb);
    var runs := WithGaps(ClueRuns(Entries(line), colored));
    var starts := Starts(pb);
    RunsOfBlocks(line, colored, pb, runs);
    forall k | 0 < k < |runs| ensures starts[k - 1] + runs[k - 1].len + GapOf(runs[k]) <= starts[k] {
      BlocksApart(line, pb, colored, k);
    }
    if |runs| > 0 {
      assert MaximalPositive(line, pb[|pb| - 1]);
      assert GapOf(runs[0]) <= starts[0] && starts[|runs| - 1] + runs[|runs| - 1].len <= |line|;
    }
    assert LaidOut(runs, starts, |line|);
    LaidOutFits(runs, starts, |line|);
  }

  /** Where each block starts. */
  function Starts(pb: seq<Block<int>>): (starts: seq<nat>)
    ensures |starts| == |pb| && forall k :: 0 <= k < |pb| ==> starts[k] == pb[k].start
  {
    if |pb| == 0 then [] else [pb[0].start] + Starts(pb[1..])
  }

  /** The runs of a line's corrected clue, block by block: run `k` is as long as positive block
      `k`, and needs a gap exactly when its symbol repeats that of the block before. */
  lemma RunsOfBlocks(line: seq<int>, colored: bool, pb: seq<Block<int>>, runs: seq<Run>)
    requires pb == PositiveBlocks(Blocks(line)) && Printable(Entries(line), colored, Corrected)
    requires runs == WithGaps(ClueRuns(Entries(line), colored))
    ensures |runs| == |pb|
    ensures forall k :: 0 <= k < |pb| ==> pb[k].value >= 1 && (colored ==> pb[k].value <= COLOR_SYMBOLS)
    ensures forall k :: 0 <= k < |pb| ==> runs[k].len == pb[k].len
    ensures |pb| > 0 ==> !runs[0].emptyBefore
    ensures forall k :: 0 < k < |pb| ==>
      (runs[k].emptyBefore == (if colored then ColorSymbol(pb[k - 1].value - 1) == ColorSymbol(pb[k].value - 1) else true))
  {
    var es := Entries(line);
    assert es == EntriesOf(pb);
    var specs := ClueRuns(es, colored);
    forall k | 0 <= k < |pb|
      ensures pb[k].value >= 1 && (colored ==> pb[k].value <= COLOR_SYMBOLS)
      ensures runs[k].len == pb[k].len
      ensures k > 0 ==> (runs[k].emptyBefore == (if colored then ColorSymbol(pb[k - 1].value - 1) == ColorSymbol(pb[k].value - 1) else true))
    {
      RunAt(pb, es, colored, specs, runs, k);
    }
  }

  /** Run `k` of the corrected clue of blocks `pb`, from entries `k - 1` and `k`. */
  lemma RunAt(pb: seq<Block<int>>, es: seq<Entry>, colored: bool, specs: seq<RunSpec>, runs: seq<Run>, k: nat)
    requires es == EntriesOf(pb) && Printable(es, colored, Corrected) && 0 <= k < |pb|
    requires specs == ClueRuns(es, colored) && runs == WithGaps(specs)
    ensures pb[k].value >= 1 && (colored ==> pb[k].value <= COLOR_SYMBOLS)
    ensures runs[k].len == pb[k].len
    ensures k > 0 ==> (runs[k].emptyBefore == (if colored then ColorSymbol(pb[k - 1].value - 1) == ColorSymbol(pb[k].value - 1) else true))
  {
    assert es[k] == Entry(pb[k].len, pb[k].value);
    if k > 0 {
      assert es[k - 1] == Entry(pb[k - 1].len, pb[k - 1].value);
    }
  }

  /** Two neighbouring positive blocks of a line whose symbols agree do not touch. */
  lemma BlocksApart(line: seq<int>, pb: seq<Block<int>>, colored: bool, k: nat)
    requires 0 < k < |pb|
    requires MaximalPositive(line, pb[k - 1]) && MaximalPositive(line, pb[k])
    requires End(pb[k - 1]) <= pb[k].start
    requires End(pb[k - 1]) == pb[k].start ==> pb[k - 1].value != pb[k].value
    requires colored ==> pb[k - 1].value <= COLOR_SYMBOLS && pb[k].value <= COLOR_SYMBOLS
    requires !colored ==> forall c :: 0 <= c < |line| ==> line[c] <= 1
    ensures var same := if colored then ColorSymbol(pb[k - 1].value - 1) == ColorSymbol(pb[k].value - 1) else true;
      End(pb[k - 1]) + (if same then 1 else 0) <= pb[k].start
  {
    if colored {
      ColorSymbolInjective(pb[k - 1].value - 1, pb[k].value - 1);
    } else {
      assert line[pb[k - 1].start] == pb[k - 1].value && line[pb[k].start] == pb[k].value;
    }
  }

  /** The runs the solver builds from a corrected clue are its entries, one run per entry with
      the entry's length and colour symbol. */
  lemma ClueTokensRuns(es: seq<Entry>, colored: bool)
    requires Printable(es, colored, Corrected)
    ensures BuildRuns(ClueTokens(es, colored), colored) == Ok(ClueRuns(es, colored))
  {
    if |es| > 0 {
      BuildRunsOfTokens(ClueRuns(es, colored), colored);
    } else {
      ZeroTokenFirst(COLOR_BLACK, [], colored);
      assert [Token(0, COLOR_BLACK)] + [] == ClueTokens(es, colored);
      assert ClueRuns(es, colored) == [];
    }
  }

  /** With at most ten colours the encoder's decimal colour is already the corrected symbol:
      the two styles write the same clue. */
  lemma AsWrittenAgrees(es: seq<Entry>, colored: bool)
    requires Printable(es, colored, Corrected)
    requires forall k :: 0 <= k < |es| ==> es[k].value <= 10
    ensures Printable(es, colored, AsWritten)
    ensures QuotedClue(es, colored, AsWritten) == QuotedClue(es, colored, Corrected)
  {
    assert EntryTexts(es, colored, AsWritten) == EntryTexts(es, colored, Corrected);
  }

  /** A colour index of ten or more has at least two decimal digits. */
  lemma TwoDigits(n: nat)
    requires n >= 10
    ensures |Digits(n)| >= 2
  {
    assert Digits(n) == Digits(n / 10) + [DigitChar(n % 10)];
  }

  /** The as-written clue whose first entry has a colour index of ten or more: the solver reads
      the length, the `-` and the first digit of the index as the colour, then finds a second
      digit where it wants a comma or a closing double quote. */
  lemma AsWrittenColorUnreadable(text: string, i: nat, es: seq<Entry>)
    requires |es| > 0 && Printable(es, true, AsWritten) && es[0].value > 10
    requires HoldsAt(text, i, QuotedClue(es, true, AsWritten))
    ensures ReadClueText(text, i, true) == Err(InvalidSetSeparator)
  {
    var c := Digits(es[0].value - 1);
    TwoDigits(es[0].value - 1);
    var j := i + 1 + |Digits(es[0].len)|;
    ColorMarkAt(text, i, es, c, j);
    LengthThenTwoDigits(text, i + 1, es[0].len, j, c[0], c[1]);
  }

  /** Where the first entry's length and the `-` with the first two colour digits lie in an
      as-written clue. */
  lemma ColorMarkAt(text: string, i: nat, es: seq<Entry>, c: string, j: nat)
    requires |es| > 0 && Printable(es, true, AsWritten)
    requires HoldsAt(text, i, QuotedClue(es, true, AsWritten))
    requires c == Digits(es[0].value - 1) && |c| >= 2 && j == i + 1 + |Digits(es[0].len)|
    ensures At(text, i, DELIMITER_CLUE) && HoldsAt(text, i + 1, Digits(es[0].len))
    ensures j + 3 <= |text| && text[j..j + 3] == [SEPARATOR_COLOR, c[0], c[1]]
  {
    var a := Digits(es[0].len);
    var ps := EntryTexts(es, true, AsWritten);
    var tail := (if |es| == 1 then [] else [SEPARATOR_SETS] + Join(ps[1..], [SEPARATOR_SETS])) + [DELIMITER_CLUE];
    ClueShape(es, a, c, tail);
    MarkAfterLength(text, i, a, [SEPARATOR_COLOR, c[0], c[1]], c[2..] + tail, j);
  }

  /** An as-written clue: a double quote, the first entry's length, a `-`, the first two digits
      of its colour, and the rest. */
  lemma ClueShape(es: seq<Entry>, a: string, c: string, tail: string)
    requires |es| > 0 && Printable(es, true, AsWritten)
    requires a == Digits(es[0].len) && c == Digits(es[0].value - 1) && |c| >= 2
    requires tail == (if |es| == 1 then [] else [SEPARATOR_SETS] + Join(EntryTexts(es, true, AsWritten)[1..], [SEPARATOR_SETS])) + [DELIMITER_CLUE]
    ensures QuotedClue(es, true, AsWritten) == [DELIMITER_CLUE] + (a + ([SEPARATOR_COLOR, c[0], c[1]] + (c[2..] + tail)))
  {
    var ps := EntryTexts(es, true, AsWritten);
    var x := if |es| == 1 then [] else [SEPARATOR_SETS] + Join(ps[1..], [SEPARATOR_SETS]);
    var m, r := [SEPARATOR_COLOR, c[0], c[1]], c[2..];
    assert Join(ps, [SEPARATOR_SETS]) == ps[0] + x;
    assert ps[0] == a + (m + r) by {
      assert [SEPARATOR_COLOR] + c == m + r;
    }
    Reassoc([DELIMITER_CLUE], a, m, r, x, [DELIMITER_CLUE]);
  }


  /** Where the parts of a clue text lie. */
  lemma MarkAfterLength(text: string, i: nat, a: string, mark: string, rest: string, j: nat)
    requires HoldsAt(text, i, [DELIMITER_CLUE] + (a + (mark + rest))) && j == i + 1 + |a|
    ensures At(text, i, DELIMITER_CLUE) && HoldsAt(text, i + 1, a)
    ensures j + |mark| <= |text| && text[j..j + |mark|] == mark
  {
    HoldsAtConcat(text, i, [DELIMITER_CLUE], a + (mark + rest));
    HoldsAtSlice(text, i, [DELIMITER_CLUE]);
    assert text[i..i + 1][0] == DELIMITER_CLUE;
    HoldsAtConcat(text, i + 1, a, mark + rest);
    HoldsAtConcat(text, j, mark, rest);
    HoldsAtSlice(text, j, mark);
  }

  /** A length, a `-` and two digits: the reader takes the first digit for the colour and stops
      at the second. */
  lemma LengthThenTwoDigits(text: string, p: nat, len: nat, j: nat, d0: char, d1: char)
    requires p > 0 && At(text, p - 1, DELIMITER_CLUE)
    requires len >= 1 && HoldsAt(text, p, Digits(len)) && j == p + |Digits(len)|
    requires j + 3 <= |text| && text[j..j + 3] == [SEPARATOR_COLOR, d0, d1]
    requires IsDigit(d0) && IsDigit(d1)
    ensures ReadClueText(text, p - 1, true) == Err(InvalidSetSeparator)
  {
    assert text[j] == SEPARATOR_COLOR && text[j + 1] == d0 && text[j + 2] == d1 by {
      assert text[j..j + 3][0] == text[j] && text[j..j + 3][1] == text[j + 1] && text[j..j + 3][2] == text[j + 2];
    }
    ScanNumeral(text, p, len);
    assert ReadToken(text, p, true) == Ok((Token(len, d0), j + 2));
  }

  /** The as-written page of a coloured grid whose first column starts with a colour index of
      ten or more: the solver refuses it at the first column clue. */
  lemma AsWrittenPageUnreadable(columns: seq<seq<Entry>>, rows: seq<seq<Entry>>)
    requires |columns| > 0 && forall k :: 0 <= k < |columns| ==> Printable(columns[k], true, AsWritten)
    requires |rows| > 0 && forall k :: 0 <= k < |rows| ==> Printable(rows[k], true, AsWritten)
    requires |columns[0]| > 0 && columns[0][0].value > 10
    ensures ReadPuzzle(TextLines(PageLines(columns, rows, true, AsWritten))) == Err(ClueError(0, InvalidSetSeparator))
  {
    var text := TextLines(PageLines(columns, rows, true, AsWritten));
    var width, height := |columns|, |rows|;
    var first := QuotedClue(columns[0], true, AsWritten);
    var p1 := |NumberLine(width)|;
    var p2 := p1 + |NumberLine(height)|;
    var p3 := p2 + |NumberLine(Flag(true))|;
    PageParts(columns, rows, text, first, p1, p2, p3);
    ScanHeader(text, width, height, true, p1, p2, p3);
    AsWrittenColorUnreadable(text, p3, columns[0]);
    assert ReadGroup(text, p3, 0, width, true, width, height) == Err(ClueError(0, InvalidSetSeparator));
  }

  /** Where the header and the first column clue of an as-written page lie. */
  lemma PageParts(columns: seq<seq<Entry>>, rows: seq<seq<Entry>>, text: string, first: string, p1: nat, p2: nat, p3: nat)
    requires |columns| > 0 && forall k :: 0 <= k < |columns| ==> Printable(columns[k], true, AsWritten)
    requires |rows| > 0 && forall k :: 0 <= k < |rows| ==> Printable(rows[k], true, AsWritten)
    requires text == TextLines(PageLines(columns, rows, true, AsWritten)) && first == QuotedClue(columns[0], true, AsWritten)
    requires p1 == |NumberLine(|columns|)| && p2 == p1 + |NumberLine(|rows|)| && p3 == p2 + |NumberLine(Flag(true))|
    ensures HoldsAt(text, 0, NumberLine(|columns|)) && HoldsAt(text, p1, NumberLine(|rows|))
    ensures HoldsAt(text, p2, NumberLine(Flag(true))) && HoldsAt(text, p3, first)
  {
    var a, b, c := NumberLine(|columns|), NumberLine(|rows|), NumberLine(Flag(true));
    var gc, gr := GroupLine(columns, true, AsWritten), GroupLine(rows, true, AsWritten);
    var nl := [SEPARATOR_LINES];
    TextLinesFive(Digits(|columns|), Digits(|rows|), Digits(Flag(true)), gc, gr);
    var qs := seq(|columns|, k requires 0 <= k < |columns| => QuotedClue(columns[k], true, AsWritten));
    var more := if |columns| == 1 then [] else [SEPARATOR_CLUES] + Join(qs[1..], [SEPARATOR_CLUES]);
    assert gc == first + more;
    var after := more + nl + (gr + nl);
    Reassoc2(a + b + c, first, more, nl, gr + nl);
    assert text == (a + b + c) + (first + after);
    HoldsAtSlice(text, 0, text);
    HeadParts(text, a, b, c, first + after, p1, p2, p3);
    HoldsAtConcat(text, p3, first, after);
  }

  /** Where three lines and what follows them lie in a text that starts with them. */
  lemma HeadParts(text: string, a: string, b: string, c: string, rest: string, p1: nat, p2: nat, p3: nat)
    requires HoldsAt(text, 0, (a + b + c) + rest)
    requires p1 == |a| && p2 == p1 + |b| && p3 == p2 + |c|
    ensures HoldsAt(text, 0, a) && HoldsAt(text, p1, b) && HoldsAt(text, p2, c) && HoldsAt(text, p3, rest)
  {
    HoldsAtConcat(text, 0, a + b + c, rest);
    HoldsAtConcat(text, 0, a + b, c);
    HoldsAtConcat(text, 0, a, b);
  }


  /** The entries of a line of one painted cell. */
  lemma OneCell(v: int)
    requires v > 0
    ensures Entries([v]) == [Entry(1, v)]
  {
    assert [v][..0] == [];
    assert Blocks([v]) == [Block(0, 1, v)];
    PositiveSnoc([], Block(0, 1, v));
  }

  /** The smallest grid that shows it: one cell of colour 11 in a palette of twelve, written
      `"1-10"` as a column clue and as a row clue. */
  lemma AsWrittenOneCellUnreadable()
    ensures ColumnEntries([[11]], 1) == [[Entry(1, 11)]] && RowEntries([[11]]) == [[Entry(1, 11)]]
    ensures ReadPuzzle(TextLines(PageLines([[Entry(1, 11)]], [[Entry(1, 11)]], true, AsWritten))) == Err(ClueError(0, InvalidSetSeparator))
  {
    OneCell(11);
    assert Column([[11]], 0) == [11];
    AsWrittenPageUnreadable([[Entry(1, 11)]], [[Entry(1, 11)]]);
  }
}
