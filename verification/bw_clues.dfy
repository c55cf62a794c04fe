/** `read_clue` of the black-and-white solver (nonogram.c:90-163): a clue is a double-quoted,
    comma-separated list of run lengths, followed by the separator of its group (a comma between
    clues, a newline after the last column clue and after the last row clue). Reading it records
    the runs and `len_min`, the cells they need with one gap between runs, and rejects a clue that
    needs more cells than its line has.

    As written the reader has two defects (see the Findings): a value is rejected only when the
    number could not be scanned AND the variable it would have been stored in holds less than 1,
    so 0 and negative lengths pass; and `len_min` starts from whatever the freshly allocated
    clue held. `Check` selects the reader as written or as evidently intended; the uninitialised
    values are parameters. */
module BwClues {
  import opened Results
  import opened BwLine
  import opened BwPlacements

  /** What `scanf("%d", &set)` did: read a number, or failed and left `set` as it was. */
  datatype Scan = Number(v: int) | NoNumber

  /** One run of the clue: the scan of its length and the character read after it. */
  datatype Item = Item(scan: Scan, sep: char)

  datatype Check = AsWritten | Corrected

  datatype ReadError = NoOpeningQuote | InvalidSetValue | InvalidSetSeparator | IncompatibleClue | InvalidClueSeparator

  datatype BwClue = BwClue(pos: nat, sets: seq<int>, lenMin: int)

  /** The value check at nonogram.c:101. As written it rejects only a failed scan whose stale
      variable (`stale`) is below 1; corrected, it rejects a failed scan or a value below 1. */
  predicate Rejected(s: Scan, check: Check, stale: int) {
    match check
    case AsWritten => s.NoNumber? && stale < 1
    case Corrected => s.NoNumber? || s.v < 1
  }

  /** The value stored: the number read, or the stale variable after a failed scan. */
  function ValueOf(s: Scan, stale: int): int {
    if s.Number? then s.v else stale
  }

  /** The loop of `read_clue` (nonogram.c:98-136): one value and one separator per run, until the
      closing quote. Input that ends before it scans no number and then reads no separator. */
  function ReadSets(items: seq<Item>, check: Check, stale: int): (r: Result<seq<int>, ReadError>)
    ensures r.Ok? ==> 0 < |r.value| <= |items|
  {
    if |items| == 0 then
      if Rejected(NoNumber, check, stale) then Err(InvalidSetValue) else Err(InvalidSetSeparator)
    else if Rejected(items[0].scan, check, stale) then Err(InvalidSetValue)
    else
      var v := ValueOf(items[0].scan, stale);
      if items[0].sep != ',' && items[0].sep != '"' then Err(InvalidSetSeparator)
      else if items[0].sep == '"' then Ok([v])
      else
        var rest :- ReadSets(items[1..], check, ValueOf(items[0].scan, stale));
        Ok([v] + rest)
  }

  function Sum(xs: seq<int>): int {
    if |xs| == 0 then 0 else xs[0] + Sum(xs[1..])
  }

  /** The length of the line clue `pos` describes: clues `0 .. columns_n-1` are columns, whose
      lines have `rows_n` cells; the others are rows. */
  function LineLen(pos: nat, columnsN: nat, rowsN: nat): nat {
    if pos < columnsN then rowsN else columnsN
  }

  /** `read_clue` (nonogram.c:90-163). `first` is the character before the clue, `after` the one
      after its closing quote, `separator` the one expected there, and `init` the value
      `len_min` starts from (as written: whatever the allocation held). */
  function ReadClue(first: char, items: seq<Item>, after: char, separator: char, pos: nat, columnsN: nat, rowsN: nat,
                    check: Check, init: int, stale: int): (r: Result<BwClue, ReadError>)
    ensures r.Ok? ==> r.value.pos == pos && |r.value.sets| > 0
  {
    if first != '"' then Err(NoOpeningQuote)
    else
      var sets :- ReadSets(items, check, stale);
      var lenMin := (if check.AsWritten? then init else 0) + Sum(sets) + |sets| - 1;
      if lenMin > LineLen(pos, columnsN, rowsN) then Err(IncompatibleClue)
      else if after != separator then Err(InvalidClueSeparator)
      else Ok(BwClue(pos, sets, lenMin))
  }

  // ---------------------------------------------------------------------------------------
  // The corrected reader accepts exactly the well-formed clues.

  /** `items[..i+1]` is a well-formed clue body: positive numbers separated by commas, the last
      one followed by the closing quote. */
  predicate Body(items: seq<Item>, i: nat) {
    && i < |items| && items[i].sep == '"'
    && (forall j :: 0 <= j < i ==> items[j].sep == ',')
    && (forall j :: 0 <= j <= i ==> items[j].scan.Number? && items[j].scan.v >= 1)
  }

  function Values(items: seq<Item>, i: nat): (r: seq<nat>)
    requires Body(items, i)
    ensures |r| == i + 1
  {
    seq(i + 1, j requires 0 <= j <= i => items[j].scan.v)
  }

  lemma {:induction false} ReadSetsCorrected(items: seq<Item>, stale: int)
    ensures ReadSets(items, Corrected, stale).Ok? <==> exists i: nat :: Body(items, i)
    ensures forall i: nat :: Body(items, i) ==> ReadSets(items, Corrected, stale).value == Values(items, i)
    decreases |items|
  {
    forall i: nat | Body(items, i)
      ensures |items| > 0 && !Rejected(items[0].scan, Corrected, stale) && items[0].sep == (if i == 0 then '"' else ',')
    {
    }
    if |items| > 0 && !Rejected(items[0].scan, Corrected, stale) && items[0].sep == ',' {
      var tail := items[1..];
      ReadSetsCorrected(tail, items[0].scan.v);
      forall i: nat | Body(items, i)
        ensures i > 0 && Body(tail, i - 1)
      {
        assert items[i].sep == '"';
      }
      if exists i: nat :: Body(tail, i) {
        var i: nat :| Body(tail, i);
        assert Body(items, i + 1);
      }
      forall i: nat | Body(items, i)
        ensures ReadSets(items, Corrected, stale).value == Values(items, i)
      {
        assert Values(items, i) == [items[0].scan.v] + Values(tail, i - 1);
      }
    } else if |items| > 0 && !Rejected(items[0].scan, Corrected, stale) && items[0].sep == '"' {
      assert Body(items, 0);
      forall i: nat | Body(items, i) ensures i == 0 { }
    }
  }

  lemma {:induction false} SumIsSumFrom(sets: seq<nat>, k: nat)
    requires k <= |sets|
    ensures Sum(sets[k..]) == SumFrom(sets, k)
    decreases |sets| - k
  {
    if k < |sets| {
      assert sets[k..][1..] == sets[k + 1..];
      SumIsSumFrom(sets, k + 1);
    }
  }

  /** The corrected `read_clue` accepts a clue exactly when it is opened by a quote, its body is
      a comma-separated list of positive lengths closed by a quote, its runs fit in the line with
      a gap between each two, and the right separator follows. It then records those lengths,
      and `len_min` is the room the enumeration starts from. */
  lemma ReadClueCorrected(first: char, items: seq<Item>, after: char, separator: char, pos: nat, columnsN: nat, rowsN: nat,
                          init: int, stale: int)
    ensures ReadClue(first, items, after, separator, pos, columnsN, rowsN, Corrected, init, stale).Ok?
      <==> first == '"' && after == separator
           && exists i: nat :: Body(items, i) && Rem(Values(items, i), 0) <= LineLen(pos, columnsN, rowsN)
    ensures forall i: nat :: Body(items, i) && ReadClue(first, items, after, separator, pos, columnsN, rowsN, Corrected, init, stale).Ok? ==>
      var cl := ReadClue(first, items, after, separator, pos, columnsN, rowsN, Corrected, init, stale).value;
      cl.sets == Values(items, i) && cl.lenMin == Rem(Values(items, i), 0)
  {
    ReadSetsCorrected(items, stale);
    forall i: nat | Body(items, i)
      ensures Sum(Values(items, i)) + |Values(items, i)| - 1 == Rem(Values(items, i), 0)
    {
      SumIsSumFrom(Values(items, i), 0);
      assert Values(items, i)[0..] == Values(items, i);
    }
    if exists i: nat :: Body(items, i) {
      var i: nat :| Body(items, i);
      forall i': nat | Body(items, i') ensures i' == i { }
    }
  }

  // ---------------------------------------------------------------------------------------
  // The two defects.

  /** As written, the clue `"0"` is accepted with a run of length 0, and so is `"-1"`; corrected,
      both are rejected. */
  lemma AsWrittenAcceptsNonPositive(stale: int)
    ensures ReadClue('"', [Item(Number(0), '"')], ',', ',', 0, 2, 2, AsWritten, 0, stale) == Ok(BwClue(0, [0], 0))
    ensures ReadClue('"', [Item(Number(-1), '"')], ',', ',', 0, 2, 2, AsWritten, 0, stale).Ok?
    ensures ReadClue('"', [Item(Number(0), '"')], ',', ',', 0, 2, 2, Corrected, 0, stale) == Err(InvalidSetValue)
  {
    assert Sum([0]) == 0 && Sum([-1]) == -1;
  }

  /** As written, `len_min` starts from whatever the allocation held: the clue `"1"` of a
      3-cell line is rejected when it held 3, and the clue `"2,2"`, which needs 5 cells, is
      accepted for a 3-cell line when it held -2. Corrected, the first is accepted and the second
      rejected. */
  lemma AsWrittenLenMinGarbage(stale: int)
    ensures ReadClue('"', [Item(Number(1), '"')], ',', ',', 0, 2, 3, AsWritten, 3, stale) == Err(IncompatibleClue)
    ensures ReadClue('"', [Item(Number(1), '"')], ',', ',', 0, 2, 3, Corrected, 3, stale) == Ok(BwClue(0, [1], 1))
    ensures ReadClue('"', [Item(Number(2), ','), Item(Number(2), '"')], ',', ',', 0, 2, 3, AsWritten, -2, stale).Ok?
    ensures ReadClue('"', [Item(Number(2), ','), Item(Number(2), '"')], ',', ',', 0, 2, 3, Corrected, -2, stale) == Err(IncompatibleClue)
  {
    assert Sum([1]) == 1;
    assert Sum([2, 2]) == 4 by { assert [2, 2][1..] == [2]; }
    var items := [Item(Number(2), ','), Item(Number(2), '"')];
    assert items[1..] == [Item(Number(2), '"')];
    assert ReadSets(items[1..], AsWritten, 2) == Ok([2]);
    assert ReadSets(items, AsWritten, stale) == Ok([2] + [2]);
    assert [2] + [2] == [2, 2];
    assert ReadSets(items[1..], Corrected, 2) == Ok([2]);
    assert ReadSets(items, AsWritten, stale) == Ok([2, 2]);
    assert ReadSets(items, Corrected, stale) == Ok([2, 2]);
  }

  /** The placements of the accepted zero-length run in a 2-cell line: it can start at every
      cell and at the end. */
  lemma ZeroPlacements()
    ensures Placements(Ctx(0, [0]), [0, 0], 0, 0) == [[0], [1], [2]]
  {
    var x := Ctx(0, [0]);
    var c := [0, 0];
    assert Placements(x, c, 1, 0) == [[]];
    assert Placements(x, c, 1, 1) == [[]];
    assert Placements(x, c, 1, 2) == [[]];
    assert StartsFrom(x, c, 0, 0, 3) == [];
    assert CanEmpty(c, 0, 2) && CanFill(c, 2, 2);
    assert Prepend(2, [[]]) == [[2]] by { assert [2] + [] == [2]; }
    assert Prepend(1, [[]]) == [[1]] by { assert [1] + [] == [1]; }
    assert Prepend(0, [[]]) == [[0]] by { assert [0] + [] == [0]; }
    assert At(x, c, 0, 0, 2) == [[2]];
    assert At(x, c, 0, 0, 1) == [[1]];
    assert At(x, c, 0, 0, 0) == [[0]];
  }

  /** Each of those placements paints the whole line empty. */
  lemma ZeroPaint(t: nat)
    requires t <= 2
    ensures Paint(Ctx(0, [0]), [0, 0], 0, 0, [t]) == [-1, -1]
  {
    var x := Ctx(0, [0]);
    var m := Change(Change([0, 0], 0, t, 0, -1), t, t, 0, 1);
    assert [t][1..] == [];
    assert Paint(x, [0, 0], 0, 0, [t]) == Paint(x, m, 1, t, []);
    assert Paint(x, m, 1, t, []) == Change(m, t, 2, 0, -1);
  }

  /** What the accepted `"0"` does to the search: the enumeration of a 2-cell line reaches the
      same all-empty line three times, so the search below it runs three times and every
      solution under it is counted three times. */
  lemma ZeroRunRepeats()
    ensures Choose(Ctx(0, [0]), Run, 0, [0, 0], 0, 0, 0).visits == [[-1, -1], [-1, -1], [-1, -1]]
  {
    var x := Ctx(0, [0]);
    assert Rem(x.sets, 0) == 0;
    ChooseVisits(x, Run, 0, [0, 0], 0, 0, 0);
    ZeroPlacements();
    ZeroPaint(0);
    ZeroPaint(1);
    ZeroPaint(2);
  }
}
