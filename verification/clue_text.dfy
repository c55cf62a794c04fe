/** The text of one clue as the coloured solver reads it (src/nonogram.c:306-366): a double quote,
    then tokens `<length>` or, in coloured mode and for a positive length, `<length>-<colour>`,
    separated by commas, then a closing double quote; the character after it must be the clue
    separator the caller names (a comma between clues, a newline after the last clue of a group,
    src/nonogram.c:162-181). The encoders produce this text, and the lemmas here read it back. */
module ClueText {
  import opened Results
  import opened Decimal
  import opened ClueSetup

  /** Separators of the solver's input (src/nonogram.c:7-11). */
  const SEPARATOR_CLUES: char := ','
  const SEPARATOR_LINES: char := '\n'
  const DELIMITER_CLUE: char := '"'
  const SEPARATOR_COLOR: char := '-'
  const SEPARATOR_SETS: char := ','

  /** The errors of the clue reader, one per message of `read_clue`. */
  datatype TextError =
    | DoubleQuoteExpected
    | InvalidSetLength
    | InvalidColorSeparator
    | InvalidSetColor
    | InvalidSetSeparator
    | InvalidClueSeparator

  /** `isspace` in the C locale. */
  predicate IsSpace(c: char) {
    c == ' ' || ('\t' <= c <= '\r')
  }

  /** `text[i]` exists and is `c`; reading past the end yields EOF, which matches no character. */
  predicate At(text: string, i: nat, c: char) {
    i < |text| && text[i] == c
  }

  /** The first index from `i` on that does not hold a white-space character. */
  function SkipSpace(text: string, i: nat): (e: nat)
    requires i <= |text|
    ensures i <= e <= |text| && (e < |text| ==> !IsSpace(text[e]))
    decreases |text| - i
  {
    if i < |text| && IsSpace(text[i]) then SkipSpace(text, i + 1) else i
  }

  /** `text[d..e]` holds digits only. */
  predicate DigitsIn(text: string, d: nat, e: nat)
    requires d <= e <= |text|
    decreases e - d
  {
    d == e || (IsDigit(text[d]) && DigitsIn(text, d + 1, e))
  }

  lemma {:induction false} DigitsInAll(text: string, d: nat, e: nat)
    requires d <= e <= |text|
    ensures DigitsIn(text, d, e) <==> forall k :: d <= k < e ==> IsDigit(text[k])
    decreases e - d
  {
    if d < e {
      DigitsInAll(text, d + 1, e);
    }
  }

  /** The end of the longest digit string starting at `i`. */
  function DigitsEnd(text: string, i: nat): (e: nat)
    requires i <= |text|
    ensures i <= e <= |text| && (e < |text| ==> !IsDigit(text[e]))
    ensures DigitsIn(text, i, e)
    decreases |text| - i
  {
    if i < |text| && IsDigit(text[i]) then DigitsEnd(text, i + 1) else i
  }

  /** A digit string followed by a non-digit is the longest one. */
  lemma {:induction false} DigitsEndAt(text: string, i: nat, e: nat)
    requires i <= e <= |text| && DigitsIn(text, i, e) && (e < |text| ==> !IsDigit(text[e]))
    ensures DigitsEnd(text, i) == e
    decreases e - i
  {
    if i < e {
      DigitsEndAt(text, i + 1, e);
    }
  }

  /** The value of the digits `text[d..e]`. */
  function DigitsValue(text: string, d: nat, e: nat): nat
    requires d <= e <= |text| && DigitsIn(text, d, e)
    decreases e - d
  {
    if e == d then 0
    else
      DigitsInAll(text, d, e);
      DigitsInAll(text, d, e - 1);
      DigitsValue(text, d, e - 1) * 10 + DigitValue(text[e - 1])
  }

  /** Reading the digits in place gives the value of the digit string. */
  lemma {:induction false} DigitsValueIsValue(text: string, d: nat, e: nat)
    requires d <= e <= |text| && DigitsIn(text, d, e)
    ensures AllDigits(text[d..e]) && DigitsValue(text, d, e) == Value(text[d..e])
    decreases e - d
  {
    DigitsInAll(text, d, e);
    assert AllDigits(text[d..e]) by {
      forall k | 0 <= k < e - d ensures IsDigit(text[d..e][k]) {
        assert text[d..e][k] == text[d + k];
      }
    }
    if e > d {
      DigitsInAll(text, d, e - 1);
      DigitsValueIsValue(text, d, e - 1);
      assert text[d..e][..e - d - 1] == text[d..e - 1];
    }
  }

  /** What `scanf("%d")` matched: the value and the index after it, or nothing. */
  datatype Scan = Scanned(value: int, next: nat) | NoMatch

  /** `scanf("%d")` from index `i`: white space, an optional sign, then the longest digit
      string, which must not be empty. */
  function ScanInt(text: string, i: nat): (r: Scan)
    requires i <= |text|
    ensures r.Scanned? ==> i < r.next <= |text| && IsDigit(text[r.next - 1])
  {
    var s := SkipSpace(text, i);
    var signed := At(text, s, '-') || At(text, s, '+');
    var d := if signed then s + 1 else s;
    var e := DigitsEnd(text, d);
    if e == d then NoMatch
    else
      var v: int := DigitsValue(text, d, e);
      Scanned(if At(text, s, '-') then -v else v, e)
  }

  /** The colour character of a token and the index after it: for a positive length in
      coloured mode a `'-'` and an alphanumeric character (src/nonogram.c:329-343), otherwise
      nothing is read and the colour is `'*'` (src/nonogram.c:344-346). */
  function ScanColor(text: string, j: nat, len: int, colored: bool): (r: Result<(char, nat), TextError>)
    requires j <= |text|
    ensures r.Ok? ==> j <= r.value.1 <= |text|
    ensures r.Ok? <==> !(colored && len > 0) || (At(text, j, SEPARATOR_COLOR) && j + 1 < |text| && IsAlnum(text[j + 1]))
    ensures r.Ok? && colored && len > 0 ==> r.value == (text[j + 1], j + 2)
    ensures r.Ok? && !(colored && len > 0) ==> r.value == (COLOR_BLACK, j)
  {
    if colored && len > 0 then
      if !At(text, j, SEPARATOR_COLOR) then Err(InvalidColorSeparator)
      else if !(j + 1 < |text| && IsAlnum(text[j + 1])) then Err(TextError.InvalidSetColor)
      else Ok((text[j + 1], j + 2))
    else Ok((COLOR_BLACK, j))
  }

  /** One token from index `i`: its length, rejected when missing or negative
      (src/nonogram.c:323-328), and its colour; with the index after it. */
  function ReadToken(text: string, i: nat, colored: bool): (r: Result<(Token, nat), TextError>)
    requires i <= |text|
    ensures r.Ok? ==> i < r.value.1 <= |text| && ValidTokens([r.value.0], colored)
    ensures r.Ok? ==> r.value.0.len > 0 || r.value.0.color == COLOR_BLACK
    ensures ScanInt(text, i).NoMatch? || ScanInt(text, i).value < 0 ==> r == Err(TextError.InvalidSetLength)
  {
    match ScanInt(text, i)
    case NoMatch => Err(TextError.InvalidSetLength)
    case Scanned(len, j) =>
      if len < 0 then Err(TextError.InvalidSetLength)
      else
        var (color, k) :- ScanColor(text, j, len, colored);
        Ok((Token(len, color), k))
  }

  /** Tokens read and the index after the closing double quote. */
  datatype Read = Read(tokens: seq<Token>, next: nat)

  /** The `do … while` loop of `read_clue` (src/nonogram.c:321-367) from index `i`: a token,
      then a comma to go on or a double quote to stop. */
  function ReadSets(text: string, i: nat, colored: bool): (r: Result<Read, TextError>)
    requires i <= |text|
    ensures r.Ok? ==> i < r.value.next <= |text| && |r.value.tokens| > 0 && text[r.value.next - 1] == DELIMITER_CLUE
    ensures r.Ok? ==> ValidTokens(r.value.tokens, colored)
    ensures r.Ok? ==> forall k :: 0 <= k < |r.value.tokens| ==> r.value.tokens[k].len > 0 || r.value.tokens[k].color == COLOR_BLACK
    decreases |text| - i
  {
    var first := ReadToken(text, i, colored);
    if first.Err? then Err(first.error)
    else
      var t := first.value.0;
      var k := first.value.1;
      if At(text, k, DELIMITER_CLUE) then Ok(Read([t], k + 1))
      else if !At(text, k, SEPARATOR_SETS) then Err(InvalidSetSeparator)
      else
        var rest := ReadSets(text, k + 1, colored);
        if rest.Err? then rest
        else Ok(Read([t] + rest.value.tokens, rest.value.next))
  }

  /** The text part of `read_clue` (src/nonogram.c:308, 321-367): the opening double quote, then
      the tokens up to the closing one. */
  function ReadClueText(text: string, i: nat, colored: bool): (r: Result<Read, TextError>)
    requires i <= |text|
    ensures r.Ok? ==> At(text, i, DELIMITER_CLUE) && i + 1 < r.value.next <= |text|
    ensures r.Ok? ==> ValidTokens(r.value.tokens, colored)
    ensures !At(text, i, DELIMITER_CLUE) ==> r == Err(DoubleQuoteExpected)
  {
    if !At(text, i, DELIMITER_CLUE) then Err(DoubleQuoteExpected)
    else ReadSets(text, i + 1, colored)
  }

  /** The last check of `read_clue` (src/nonogram.c:411-416): the character after the clue is the
      separator the caller expects. */
  function ClueEnd(text: string, next: nat, separator: char): (r: Result<nat, TextError>)
    ensures r.Ok? <==> At(text, next, separator)
    ensures r.Ok? ==> r.value == next + 1
  {
    if At(text, next, separator) then Ok(next + 1) else Err(InvalidClueSeparator)
  }

  /** A token as the encoders write it: its length in decimal, then `-` and its colour when it
      carries one. */
  function TokenText(t: Token, colored: bool): string
    requires t.len >= 0
  {
    Digits(t.len) + (if colored && t.len > 0 then [SEPARATOR_COLOR, t.color] else [])
  }

  /** A token the reader gives back as it was written: a non-negative length, an alphanumeric
      colour when one is written, and `'*'` when none is. */
  predicate Canonical(t: Token, colored: bool) {
    t.len >= 0 && (if colored && t.len > 0 then IsAlnum(t.color) else t.color == COLOR_BLACK)
  }

  /** The tokens of a clue after its opening double quote: separated by commas, closed by a
      double quote. */
  function SetsText(ts: seq<Token>, colored: bool): string
    requires |ts| > 0 && forall k :: 0 <= k < |ts| ==> Canonical(ts[k], colored)
  {
    assert Canonical(ts[0], colored);
    TokenText(ts[0], colored) + (if |ts| == 1 then [DELIMITER_CLUE] else [SEPARATOR_SETS] + SetsText(ts[1..], colored))
  }

  /** The full text of a clue. */
  function ClueString(ts: seq<Token>, colored: bool): string
    requires |ts| > 0 && forall k :: 0 <= k < |ts| ==> Canonical(ts[k], colored)
  {
    [DELIMITER_CLUE] + SetsText(ts, colored)
  }

  /** `text` holds `w` from index `i` on. */
  predicate HoldsAt(text: string, i: nat, w: string)
    decreases |w|
  {
    i <= |text| && (|w| == 0 || (At(text, i, w[0]) && HoldsAt(text, i + 1, w[1..])))
  }

  /** `HoldsAt` as a slice. */
  lemma {:induction false} HoldsAtSlice(text: string, i: nat, w: string)
    ensures HoldsAt(text, i, w) <==> i + |w| <= |text| && text[i..i + |w|] == w
    decreases |w|
  {
    if |w| > 0 {
      HoldsAtSlice(text, i + 1, w[1..]);
      if i + |w| <= |text| {
        assert text[i..i + |w|] == [text[i]] + text[i + 1..i + |w|];
        assert w == [w[0]] + w[1..];
      }
    }
  }

  /** `scanf("%d")` reads a decimal numeral back when no digit follows it. */
  lemma ScanNumeral(text: string, i: nat, n: nat)
    requires HoldsAt(text, i, Digits(n))
    requires i + |Digits(n)| < |text| ==> !IsDigit(text[i + |Digits(n)|])
    ensures ScanInt(text, i) == Scanned(n, i + |Digits(n)|)
  {
    var w := Digits(n);
    var e := i + |w|;
    HoldsAtSlice(text, i, w);
    assert text[i] == w[0];
    assert SkipSpace(text, i) == i;
    assert forall k :: i <= k < e ==> IsDigit(text[k]) by {
      forall k | i <= k < e ensures IsDigit(text[k]) {
        assert text[k] == w[k - i];
      }
    }
    DigitsInAll(text, i, e);
    DigitsEndAt(text, i, e);
    DigitsValueIsValue(text, i, e);
    assert text[i..e] == w;
    ValueOfDigits(n);
  }

  /** A token written by the encoders is read back, with the index after it. */
  lemma ScanToken(text: string, i: nat, t: Token, colored: bool)
    requires Canonical(t, colored) && HoldsAt(text, i, TokenText(t, colored))
    requires i + |TokenText(t, colored)| < |text| && !IsDigit(text[i + |TokenText(t, colored)|])
    ensures ScanInt(text, i) == Scanned(t.len, i + |Digits(t.len)|)
    ensures ScanColor(text, i + |Digits(t.len)|, t.len, colored) == Ok((t.color, i + |TokenText(t, colored)|))
  {
    var w := TokenText(t, colored);
    var d := Digits(t.len);
    var j := i + |d|;
    HoldsAtSlice(text, i, w);
    HoldsAtSlice(text, i, d);
    assert text[i..j] == d by {
      assert text[i..j] == text[i..i + |w|][..|d|];
    }
    if colored && t.len > 0 {
      assert text[j] == w[|d|] == SEPARATOR_COLOR;
      assert text[j + 1] == w[|d| + 1] == t.color;
      ScanNumeral(text, i, t.len);
    } else {
      assert w == d;
      ScanNumeral(text, i, t.len);
    }
  }

  /** The last turn of the reading loop: a token, then the closing double quote. */
  lemma ReadSetsLast(text: string, i: nat, colored: bool, t: Token, k: nat)
    requires i <= |text| && ReadToken(text, i, colored) == Ok((t, k)) && At(text, k, DELIMITER_CLUE)
    ensures ReadSets(text, i, colored) == Ok(Read([t], k + 1))
  {
  }

  /** A turn of the reading loop that goes on: a token, then a comma. */
  lemma ReadSetsMore(text: string, i: nat, colored: bool, t: Token, k: nat, rest: Read)
    requires i <= |text| && ReadToken(text, i, colored) == Ok((t, k)) && At(text, k, SEPARATOR_SETS)
    requires ReadSets(text, k + 1, colored) == Ok(rest)
    ensures ReadSets(text, i, colored) == Ok(Read([t] + rest.tokens, rest.next))
  {
  }

  /** Text held at an index splits at any point of it. */
  lemma HoldsAtConcat(text: string, i: nat, a: string, b: string)
    requires HoldsAt(text, i, a + b)
    ensures HoldsAt(text, i, a) && HoldsAt(text, i + |a|, b)
  {
    HoldsAtSlice(text, i, a + b);
    HoldsAtSlice(text, i, a);
    HoldsAtSlice(text, i + |a|, b);
    assert text[i..i + |a|] == text[i..i + |a + b|][..|a|];
    assert text[i + |a|..i + |a| + |b|] == text[i..i + |a + b|][|a|..];
  }

  /** The text of two or more tokens: the first, a comma, the others. */
  lemma SetsTextMore(ts: seq<Token>, colored: bool)
    requires |ts| > 1 && forall k :: 0 <= k < |ts| ==> Canonical(ts[k], colored)
    ensures forall k :: 0 <= k < |ts[1..]| ==> Canonical(ts[1..][k], colored)
    ensures SetsText(ts, colored) == TokenText(ts[0], colored) + [SEPARATOR_SETS] + SetsText(ts[1..], colored)
  {
  }

  /** Reading the tokens the encoders write gives back exactly those tokens, and stops after the
      closing double quote. */
  lemma ReadSetsText(text: string, i: nat, ts: seq<Token>, colored: bool)
    requires |ts| > 0 && forall k :: 0 <= k < |ts| ==> Canonical(ts[k], colored)
    requires HoldsAt(text, i, SetsText(ts, colored))
    ensures ReadSets(text, i, colored) == Ok(Read(ts, i + |SetsText(ts, colored)|))
  {
    ChainOfText(text, i, ts, colored);
    ReadSetsOfChain(text, i, ts, colored, i + |SetsText(ts, colored)|);
  }

  /** The reader's view of a clue's tokens from index `i`: each token is read in turn, followed
      by a comma, and the last by a double quote ending just before `end`. */
  predicate Chain(text: string, i: nat, ts: seq<Token>, colored: bool, end: nat)
    requires i <= |text|
    decreases |ts|
  {
    |ts| > 0 && ReadToken(text, i, colored).Ok? && ReadToken(text, i, colored).value.0 == ts[0] &&
    var k := ReadToken(text, i, colored).value.1;
    if |ts| == 1 then At(text, k, DELIMITER_CLUE) && end == k + 1
    else At(text, k, SEPARATOR_SETS) && Chain(text, k + 1, ts[1..], colored, end)
  }

  /** A chain of tokens is what the reading loop reads. */
  lemma {:induction false} ReadSetsOfChain(text: string, i: nat, ts: seq<Token>, colored: bool, end: nat)
    requires i <= |text| && Chain(text, i, ts, colored, end)
    ensures ReadSets(text, i, colored) == Ok(Read(ts, end))
    decreases |ts|
  {
    var (t, k) := ReadToken(text, i, colored).value;
    if |ts| == 1 {
      ReadSetsLast(text, i, colored, t, k);
      assert [t] == ts;
    } else {
      ReadSetsOfChain(text, k + 1, ts[1..], colored, end);
      ReadSetsMore(text, i, colored, t, k, Read(ts[1..], end));
      assert [t] + ts[1..] == ts;
    }
  }

  /** The tokens the encoders write form a chain up to the end of their text. */
  lemma {:induction false} ChainOfText(text: string, i: nat, ts: seq<Token>, colored: bool)
    requires |ts| > 0 && forall k :: 0 <= k < |ts| ==> Canonical(ts[k], colored)
    requires HoldsAt(text, i, SetsText(ts, colored))
    ensures Chain(text, i, ts, colored, i + |SetsText(ts, colored)|)
    decreases |ts|
  {
    if |ts| == 1 {
      ChainOfOne(text, i, ts, colored);
    } else {
      TailText(text, i, ts, colored);
      ChainOfText(text, i + |TokenText(ts[0], colored)| + 1, ts[1..], colored);
      ChainOfMany(text, i, ts, colored);
    }
  }

  /** The text of the tokens after the first one follows the first token and a comma. */
  lemma TailText(text: string, i: nat, ts: seq<Token>, colored: bool)
    requires |ts| > 1 && forall k :: 0 <= k < |ts| ==> Canonical(ts[k], colored)
    requires HoldsAt(text, i, SetsText(ts, colored))
    ensures ts[0].len >= 0
    ensures forall k :: 0 <= k < |ts[1..]| ==> Canonical(ts[1..][k], colored)
    ensures HoldsAt(text, i + |TokenText(ts[0], colored)| + 1, SetsText(ts[1..], colored))
  {
    assert Canonical(ts[0], colored);
    SetsTextMore(ts, colored);
    HoldsAtConcat(text, i, TokenText(ts[0], colored) + [SEPARATOR_SETS], SetsText(ts[1..], colored));
  }

  /** A clue of one token is a chain. */
  lemma ChainOfOne(text: string, i: nat, ts: seq<Token>, colored: bool)
    requires |ts| == 1 && forall k :: 0 <= k < |ts| ==> Canonical(ts[k], colored)
    requires HoldsAt(text, i, SetsText(ts, colored))
    ensures Chain(text, i, ts, colored, i + |SetsText(ts, colored)|)
  {
    assert Canonical(ts[0], colored);
    assert SetsText(ts, colored) == TokenText(ts[0], colored) + [DELIMITER_CLUE];
    LastToken(text, i, ts[0], colored);
    ChainStepLast(text, i, ts, colored, i + |TokenText(ts[0], colored)|, i + |SetsText(ts, colored)|);
  }

  /** A first token and a comma in front of a chain make a chain. */
  lemma ChainOfMany(text: string, i: nat, ts: seq<Token>, colored: bool)
    requires |ts| > 1 && forall k :: 0 <= k < |ts| ==> Canonical(ts[k], colored)
    requires HoldsAt(text, i, SetsText(ts, colored))
    requires i + |TokenText(ts[0], colored)| + 1 <= |text|
    requires Chain(text, i + |TokenText(ts[0], colored)| + 1, ts[1..], colored,
      i + |TokenText(ts[0], colored)| + 1 + |SetsText(ts[1..], colored)|)
    ensures Chain(text, i, ts, colored, i + |SetsText(ts, colored)|)
  {
    assert Canonical(ts[0], colored);
    SetsTextMore(ts, colored);
    MoreTokens(text, i, ts[0], SetsText(ts[1..], colored), colored);
    ChainStepMore(text, i, ts, colored, i + |TokenText(ts[0], colored)|, i + |SetsText(ts, colored)|);
  }

  lemma ChainStepLast(text: string, i: nat, ts: seq<Token>, colored: bool, k: nat, end: nat)
    requires i <= |text| && |ts| == 1 && end == k + 1
    requires ReadToken(text, i, colored) == Ok((ts[0], k)) && At(text, k, DELIMITER_CLUE)
    ensures Chain(text, i, ts, colored, end)
  {
  }

  lemma ChainStepMore(text: string, i: nat, ts: seq<Token>, colored: bool, k: nat, end: nat)
    requires i <= |text| && |ts| > 1 && k + 1 <= |text|
    requires ReadToken(text, i, colored) == Ok((ts[0], k)) && At(text, k, SEPARATOR_SETS)
    requires Chain(text, k + 1, ts[1..], colored, end)
    ensures Chain(text, i, ts, colored, end)
  {
  }

  /** A written token followed by the closing double quote is read back. */
  lemma LastToken(text: string, i: nat, t: Token, colored: bool)
    requires Canonical(t, colored) && HoldsAt(text, i, TokenText(t, colored) + [DELIMITER_CLUE])
    ensures ReadToken(text, i, colored) == Ok((t, i + |TokenText(t, colored)|))
    ensures At(text, i + |TokenText(t, colored)|, DELIMITER_CLUE)
  {
    var tw := TokenText(t, colored);
    var k := i + |tw|;
    HoldsAtConcat(text, i, tw, [DELIMITER_CLUE]);
    HoldsAtSlice(text, k, [DELIMITER_CLUE]);
    ScanToken(text, i, t, colored);
  }

  /** A written token followed by a comma and more text is read back. */
  lemma MoreTokens(text: string, i: nat, t: Token, rw: string, colored: bool)
    requires Canonical(t, colored) && HoldsAt(text, i, TokenText(t, colored) + [SEPARATOR_SETS] + rw)
    ensures ReadToken(text, i, colored) == Ok((t, i + |TokenText(t, colored)|))
    ensures At(text, i + |TokenText(t, colored)|, SEPARATOR_SETS)
    ensures HoldsAt(text, i + |TokenText(t, colored)| + 1, rw)
  {
    var tw := TokenText(t, colored);
    var k := i + |tw|;
    HoldsAtConcat(text, i, tw + [SEPARATOR_SETS], rw);
    HoldsAtConcat(text, i, tw, [SEPARATOR_SETS]);
    HoldsAtSlice(text, k, [SEPARATOR_SETS]);
    ScanToken(text, i, t, colored);
  }

  /** A clue written by the encoders reads back as its tokens, followed by its separator. */
  lemma ReadClueString(text: string, i: nat, ts: seq<Token>, colored: bool, separator: char)
    requires |ts| > 0 && forall k :: 0 <= k < |ts| ==> Canonical(ts[k], colored)
    requires HoldsAt(text, i, ClueString(ts, colored) + [separator])
    ensures ReadClueText(text, i, colored) == Ok(Read(ts, i + |ClueString(ts, colored)|))
    ensures ClueEnd(text, i + |ClueString(ts, colored)|, separator) == Ok(i + |ClueString(ts, colored)| + 1)
  {
    var w := ClueString(ts, colored);
    var sw := SetsText(ts, colored);
    HoldsAtConcat(text, i, w, [separator]);
    HoldsAtConcat(text, i, [DELIMITER_CLUE], sw);
    ReadSetsText(text, i + 1, ts, colored);
  }
}
