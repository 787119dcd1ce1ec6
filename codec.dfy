/** The text format of a saved canvas:

      <width> <height>\n
      <row 0: width cells>\n
      ...
      <row height-1>\n

    modelled over decoded text (a sequence of code points); the UTF-8
    encoding of the file and the reader's decoding of it are not part of
    this model. */
module Codec {
  import opened Text
  import opened Canvas

  const Percent: Pixel := 0x25

  /** A Unicode scalar value: what `string(rune)` can encode. */
  predicate IsScalar(p: int) {
    0 <= p < 0xD800 || 0xE000 <= p < 0x11_0000
  }

  /** A cell that writes itself: a scalar value other than `%`. */
  predicate Plain(p: Pixel) { IsScalar(p) && p != Percent }

  /** What `fmt.Fprintf(fout, string(p))` writes for one cell: the cell's
      text is used as a format string, so a lone `%` becomes fmt's
      missing-verb marker; a value that is not a scalar value becomes U+FFFD. */
  function CellText(p: Pixel): (t: string)
    ensures |t| >= 1
    ensures (|t| == 1 && t[0] as int == p) <==> Plain(p)
  {
    if p == Percent then "%!(NOVERB)"
    else if IsScalar(p) then [p as char]
    else "�"
  }

  /** The text of the first `n` cells of a row. */
  function RowText(row: seq<Pixel>, n: nat): string
    requires n <= |row|
  {
    if n == 0 then [] else RowText(row, n - 1) + CellText(row[n - 1])
  }

  /** The text dumpCanvas writes for the first `height` rows: each row's
      first `width` cells, then a newline. */
  function DumpText(c: Grid, width: nat, height: nat): string
    requires Covers(c, width, height)
  {
    if height == 0 then [] else DumpText(c, width, height - 1) + RowText(c[height - 1], width) + "\n"
  }

  /** The header line the save command writes before the dump. */
  function Header(width: nat, height: nat): string {
    Decimal(width) + " " + Decimal(height) + "\n"
  }

  /** The whole text of a saved canvas. */
  function SaveText(c: Grid, width: nat, height: nat): string
    requires Covers(c, width, height)
  {
    Header(width, height) + DumpText(c, width, height)
  }

  /** The inner loop of dumpCanvas: the first `width` cells of a row, cell by cell. */
  method DumpRow(row: seq<Pixel>, width: nat) returns (out: string)
    requires width <= |row|
    ensures out == RowText(row, width)
  {
    out := [];
    for x := 0 to width
      invariant out == RowText(row, x)
    {
      out := out + CellText(row[x]);
    }
  }

  /** dumpCanvas: writes the cells row by row, a newline after each row. */
  method DumpCanvas(c: Grid, width: nat, height: nat) returns (out: string)
    requires Covers(c, width, height)
    ensures out == DumpText(c, width, height)
  {
    out := [];
    for y := 0 to height
      invariant out == DumpText(c, width, y)
    {
      var line := DumpRow(c[y], width);
      out := out + line + "\n";
    }
  }

  // ---------------------------------------------------------------------
  // Decoding

  datatype LoadError = NoHeaderLine | BadWidth | BadHeight | ShortRow | NoEndOfLine

  /** What loadCanvas produces: a canvas, an error, or a run-time panic. */
  datatype Loaded =
    | Loaded(width: nat, height: nat, canvas: Grid)
    | Failed(error: LoadError)
    | Panicked

  /** Rows read so far and the input not yet consumed, or the error that stopped reading. */
  datatype Rows = Rows(rows: Grid, rest: string) | RowsFailed(error: LoadError)

  /** The code points of a text, as pixels. */
  function Pixels(s: string): seq<Pixel> {
    seq(|s|, i requires 0 <= i < |s| => s[i] as int)
  }

  /** One row of a canvas file: `width` cells and the input after the
      row's newline, or why there is no such row. */
  datatype Line = Line(row: seq<Pixel>, rest: string) | LineFailed(error: LoadError)

  /** Reading one row: the next `width` code points, whatever they are,
      then the input up to and including the next newline is skipped. */
  function NextRow(s: string, width: nat): (l: Line)
    ensures l.Line? ==> |l.row| == width
  {
    if |s| < width then LineFailed(ShortRow)
    else match SplitOnce(s[width..], '\n')
      case None => LineFailed(NoEndOfLine)
      case Some((_, rest)) => Line(Pixels(s[..width]), rest)
  }

  /** Reading `n` rows of `width` cells, one after the other. */
  function DecodeRows(s: string, width: nat, n: nat): (r: Rows)
    ensures r.Rows? ==> Shaped(r.rows, width, n)
    decreases n
  {
    if n == 0 then Rows([], s)
    else match NextRow(s, width)
      case LineFailed(e) => RowsFailed(e)
      case Line(row, rest) => Prepend([row], DecodeRows(rest, width, n - 1))
  }

  /** `rows` read before `r`. */
  function Prepend(rows: Grid, r: Rows): Rows {
    match r
    case Rows(more, rest) => Rows(rows + more, rest)
    case RowsFailed(_) => r
  }

  /** The result of loadCanvas once the header gave `width` and `height`. */
  function Finish(width: nat, height: nat, r: Rows): Loaded {
    match r
    case RowsFailed(e) => Failed(e)
    case Rows(rows, _) => Loaded(width, height, rows)
  }

  /** loadCanvas, as a function of the whole input: the header line, its
      trailing spaces and newlines trimmed, split at its first space into two
      numerals, then the rows. A header without a space whose text is a
      numeral makes the code index a missing field: a panic. */
  function DecodeCanvas(input: string): (r: Loaded)
    ensures r.Loaded? ==> Shaped(r.canvas, r.width, r.height)
  {
    match SplitOnce(input, '\n')
    case None => Failed(NoHeaderLine)
    case Some((line, body)) =>
      var header := TrimRight(line + "\n", {' ', '\n'});
      match SplitOnce(header, ' ')
      case None => if ParseDecimal(header).None? then Failed(BadWidth) else Panicked
      case Some((ws, hs)) =>
        match ParseDecimal(ws)
        case None => Failed(BadWidth)
        case Some(width) =>
          match ParseDecimal(hs)
          case None => Failed(BadHeight)
          case Some(height) => Finish(width, height, DecodeRows(body, width, height))
  }

  /** loadCanvas: reads the header line, trims it, splits it and parses
      the two numbers, then reads the rows. */
  method LoadCanvas(input: string) returns (r: Loaded)
    ensures r == DecodeCanvas(input)
  {
    var first := SplitOnce(input, '\n');
    if first.None? {
      return Failed(NoHeaderLine);
    }
    var header := TrimRight(first.value.0 + "\n", {' ', '\n'});
    var split := SplitOnce(header, ' ');
    var width := ParseDecimal(if split.Some? then split.value.0 else header);
    if width.None? {
      return Failed(BadWidth);
    }
    if split.None? {
      return Panicked;
    }
    var height := ParseDecimal(split.value.1);
    if height.None? {
      return Failed(BadHeight);
    }
    var rows := ReadRows(first.value.1, width.value, height.value);
    r := Finish(width.value, height.value, rows);
  }

  lemma NextRowOf(t: string, width: nat)
    requires width <= |t| && SplitOnce(t[width..], '\n').Some?
    ensures NextRow(t, width) == Line(Pixels(t[..width]), SplitOnce(t[width..], '\n').value.1)
  {
  }

  /** One row of DecodeRows, then the rest. */
  lemma DecodeRowsUnfold(t: string, width: nat, n: nat)
    requires n > 0 && width <= |t|
    requires SplitOnce(t[width..], '\n').Some?
    ensures DecodeRows(t, width, n)
         == Prepend([Pixels(t[..width])], DecodeRows(SplitOnce(t[width..], '\n').value.1, width, n - 1))
  {
    NextRowOf(t, width);
    DecodeRowsStep(t, width, n, Pixels(t[..width]), SplitOnce(t[width..], '\n').value.1);
  }

  lemma DecodeRowsStep(t: string, width: nat, n: nat, row: seq<Pixel>, rest: string)
    requires n > 0 && NextRow(t, width) == Line(row, rest)
    ensures DecodeRows(t, width, n) == Prepend([row], DecodeRows(rest, width, n - 1))
  {
  }

  lemma PixelsSnoc(t: string, x: nat)
    requires x < |t|
    ensures Pixels(t[..x + 1]) == Pixels(t[..x]) + [t[x] as int]
  {
    assert t[..x + 1] == t[..x] + [t[x]];
  }

  /** Rows read in two steps are the rows of the first step, then those of the second. */
  lemma PrependTwice(whole: Rows, rows: Grid, after: Rows, row: seq<Pixel>, later: Rows)
    requires whole == Prepend(rows, after) && after == Prepend([row], later)
    ensures whole == Prepend(rows + [row], later)
  {
    match later
    case RowsFailed(e) =>
    case Rows(more, tail) =>
      assert rows + ([row] + more) == rows + [row] + more;
  }

  lemma PrependNothing(r: Rows, none: Grid)
    requires none == []
    ensures Prepend(none, r) == r
  {
    match r
    case RowsFailed(_) =>
    case Rows(rows, _) => assert [] + rows == rows;
  }

  /** The row loop's invariant is kept by reading one more row from `t`. */
  lemma ReadRowsStep(s: string, width: nat, height: nat, y: nat, t: string, canvas: Grid,
                     left: nat, row: seq<Pixel>, rest: string)
    requires y < height == |canvas| && width <= |t| && left > 0
    requires row == Pixels(t[..width])
    requires SplitOnce(t[width..], '\n').Some? && rest == SplitOnce(t[width..], '\n').value.1
    requires DecodeRows(s, width, height) == Prepend(canvas[..y], DecodeRows(t, width, left))
    ensures DecodeRows(s, width, height) == Prepend(canvas[y := row][..y + 1], DecodeRows(rest, width, left - 1))
  {
    DecodeRowsUnfold(t, width, left);
    PrependTwice(DecodeRows(s, width, height), canvas[..y], DecodeRows(t, width, left), row, DecodeRows(rest, width, left - 1));
    assert canvas[y := row][..y + 1] == canvas[..y] + [row];
  }

  /** The inner loop of loadCanvas: `width` calls of ReadRune on the
      reader's input `t`, each appending the code point read to the row;
      None when the input ends first. */
  method ReadCells(t: string, width: nat) returns (row: Option<seq<Pixel>>)
    ensures row.None? <==> |t| < width
    ensures row.Some? ==> row.value == Pixels(t[..width])
  {
    var cells: seq<Pixel> := [];
    for x := 0 to width
      invariant x <= |t| && cells == Pixels(t[..x])
    {
      if x == |t| {
        return None;
      }
      PixelsSnoc(t, x);
      cells := cells + [t[x] as int];
    }
    return Some(cells);
  }

  /** The row loop of loadCanvas over the reader's input `s`: `height`
      empty rows are made, then each row is filled by ReadCells and the
      reader skips through the next newline. `t` is what the reader has
      not consumed yet. */
  method ReadRows(s: string, width: nat, height: nat) returns (r: Rows)
    ensures r == DecodeRows(s, width, height)
  {
    var canvas: Grid := seq(height, _ => []);
    var t := s;
    ghost var left: nat := height;
    PrependNothing(DecodeRows(s, width, height), canvas[..0]);
    for y := 0 to height
      invariant |canvas| == height && left == height - y
      invariant DecodeRows(s, width, height) == Prepend(canvas[..y], DecodeRows(t, width, left))
    {
      var row := ReadCells(t, width);
      if row.None? {
        return RowsFailed(ShortRow);
      }
      var eol := SplitOnce(t[width..], '\n');
      if eol.None? {
        return RowsFailed(NoEndOfLine);
      }
      ReadRowsStep(s, width, height, y, t, canvas, left, row.value, eol.value.1);
      canvas := canvas[y := row.value];
      t := eol.value.1;
      left := left - 1;
    }
    assert canvas[..height] == canvas;
    r := Rows(canvas, t);
  }

  // ---------------------------------------------------------------------
  // Reading back what was written

  /** A row of plain cells writes one code point per cell, each the cell itself. */
  lemma {:induction false} PlainRowText(row: seq<Pixel>, n: nat)
    requires n <= |row|
    requires forall i | 0 <= i < n :: Plain(row[i])
    ensures |RowText(row, n)| == n && Pixels(RowText(row, n)) == row[..n]
  {
    if n > 0 {
      PlainRowText(row, n - 1);
      var t, cell := RowText(row, n - 1), CellText(row[n - 1]);
      assert cell == [cell[0]];
      assert Pixels(t + cell) == Pixels(t) + [row[n - 1]];
      assert row[..n] == row[..n - 1] + [row[n - 1]];
    }
  }

  /** Reading `more` rows after what `r` read. */
  function Then(r: Rows, width: nat, more: nat): Rows {
    match r
    case RowsFailed(_) => r
    case Rows(rows, rest) => Prepend(rows, DecodeRows(rest, width, more))
  }

  lemma PrependThen(rows: Grid, r: Rows, width: nat, more: nat)
    ensures Prepend(rows, Then(r, width, more)) == Then(Prepend(rows, r), width, more)
  {
    match r
    case RowsFailed(_) =>
    case Rows(read, rest) =>
      match DecodeRows(rest, width, more)
      case RowsFailed(_) =>
      case Rows(later, _) => assert rows + (read + later) == rows + read + later;
  }

  /** Reading n = a + b rows is reading a rows, then b more. */
  lemma {:induction false} DecodeRowsSplit(s: string, width: nat, a: nat, b: nat, n: nat)
    requires n == a + b
    ensures DecodeRows(s, width, n) == Then(DecodeRows(s, width, a), width, b)
    decreases a
  {
    if a == 0 {
      match DecodeRows(s, width, b) {
      case RowsFailed(_) =>
      case Rows(rows, _) => assert [] + rows == rows;
      }
    } else if |s| < width {
      assert DecodeRows(s, width, a) == RowsFailed(ShortRow);
      assert DecodeRows(s, width, n) == RowsFailed(ShortRow);
    } else if SplitOnce(s[width..], '\n').None? {
      assert DecodeRows(s, width, a) == RowsFailed(NoEndOfLine);
      assert DecodeRows(s, width, n) == RowsFailed(NoEndOfLine);
    } else {
      var rest := SplitOnce(s[width..], '\n').value.1;
      DecodeRowsUnfold(s, width, n);
      DecodeRowsUnfold(s, width, a);
      DecodeRowsSplit(rest, width, a - 1, b, n - 1);
      PrependThen([Pixels(s[..width])], DecodeRows(rest, width, a - 1), width, b);
    }
  }

  lemma TakeSnoc<T>(c: seq<T>, h: nat, k: nat)
    requires k == h + 1 <= |c|
    ensures c[..h] + [c[h]] == c[..k]
  {
  }

  /** One dumped row of plain cells reads back as that row. */
  lemma DumpedRowDecodes(row: seq<Pixel>, width: nat, tail: string)
    requires |row| == width && forall x | 0 <= x < width :: Plain(row[x])
    ensures DecodeRows(RowText(row, width) + "\n" + tail, width, 1) == Rows([row], tail)
  {
    var text := RowText(row, width);
    var t := text + "\n" + tail;
    PlainRowText(row, width);
    assert t[..width] == text;
    assert t[width..] == [] + ['\n'] + tail;
    SplitOnceAt([], '\n', tail);
    DecodeRowsUnfold(t, width, 1);
    assert row[..width] == row;
  }

  lemma DumpTextSnoc(c: Grid, width: nat, h: nat, height: nat, tail: string)
    requires height > 0 && h == height - 1 && Covers(c, width, height)
    ensures DumpText(c, width, height) + tail == DumpText(c, width, h) + (RowText(c[h], width) + "\n" + tail)
  {
    var before, row := DumpText(c, width, h), RowText(c[h], width);
    assert DumpText(c, width, height) == before + row + "\n";
    assert before + row + "\n" + tail == before + (row + "\n" + tail);
  }

  /** Reading back `height` dumped rows of exactly `width` plain cells gives
      those rows and leaves what follows them unread. */
  lemma {:induction false} DumpDecodes(c: Grid, width: nat, height: nat, tail: string)
    requires height <= |c| && forall y | 0 <= y < height :: |c[y]| == width
    requires forall y, x | 0 <= y < height && 0 <= x < width :: Plain(c[y][x])
    ensures DecodeRows(DumpText(c, width, height) + tail, width, height) == Rows(c[..height], tail)
  {
    if height > 0 {
      var h: nat := height - 1;
      var t := RowText(c[h], width) + "\n" + tail;
      var whole := DumpText(c, width, height) + tail;
      DumpTextSnoc(c, width, h, height, tail);
      DumpDecodes(c, width, h, t);
      DecodeRowsSplit(whole, width, h, 1, height);
      DumpedRowDecodes(c[h], width, tail);
      TakeSnoc(c, h, height);
    }
  }

  /** A header line of two numerals, possibly followed by spaces, gives
      those numbers: loadCanvas goes on to read `height` rows of `width`
      cells from what follows the line. */
  lemma HeaderParses(width: nat, height: nat, pad: string, body: string)
    requires width <= MaxInt64 && height <= MaxInt64
    requires forall i | 0 <= i < |pad| :: pad[i] == ' '
    ensures DecodeCanvas(Decimal(width) + " " + Decimal(height) + pad + "\n" + body)
         == Finish(width, height, DecodeRows(body, width, height))
  {
    var line := Decimal(width) + " " + Decimal(height);
    assert line + pad + "\n" + body == (line + pad) + ['\n'] + body;
    assert '\n' !in line + pad by {
      assert forall i | 0 <= i < |line + pad| :: (line + pad)[i] == ' ' || IsDigit((line + pad)[i]);
    }
    SplitOnceAt(line + pad, '\n', body);
    assert line[|line| - 1] == Decimal(height)[|Decimal(height)| - 1];
    assert (line + pad) + "\n" == line + (pad + "\n");
    TrimRightStops(line, pad + "\n", {' ', '\n'});
    SplitOnceAt(Decimal(width), ' ', Decimal(height));
    DecimalRoundTrip(width);
    DecimalRoundTrip(height);
  }

  /** What the save command writes, loadCanvas reads back: the same width,
      height and cells, for a canvas whose cells are all plain. */
  lemma SaveLoadRoundTrip(c: Grid, width: nat, height: nat)
    requires Shaped(c, width, height) && width <= MaxInt64 && height <= MaxInt64
    requires forall y, x | 0 <= y < height && 0 <= x < width :: Plain(c[y][x])
    ensures DecodeCanvas(SaveText(c, width, height)) == Loaded(width, height, c)
  {
    var body := DumpText(c, width, height);
    assert SaveText(c, width, height) == Decimal(width) + " " + Decimal(height) + "" + "\n" + body;
    HeaderParses(width, height, "", body);
    DumpDecodes(c, width, height, []);
    assert body + [] == body;
    assert c[..height] == c;
  }

  /** A row's cells are the first `width` code points of its line; the
      rest of the line, up to and including the newline, is skipped. */
  lemma SurplusSkipped(cells: string, width: nat, surplus: string, tail: string)
    requires |cells| == width && '\n' !in surplus
    ensures DecodeRows(cells + surplus + "\n" + tail, width, 1) == Rows([Pixels(cells)], tail)
  {
    var t := cells + surplus + "\n" + tail;
    assert t[..width] == cells;
    assert t[width..] == surplus + ['\n'] + tail;
    SplitOnceAt(surplus, '\n', tail);
    DecodeRowsUnfold(t, width, 1);
  }

  /** The number of newlines in a text. */
  function Newlines(s: string): nat {
    if |s| == 0 then 0 else (if s[0] == '\n' then 1 else 0) + Newlines(s[1..])
  }

  lemma {:induction false} NewlinesAppend(a: string, b: string)
    ensures Newlines(a + b) == Newlines(a) + Newlines(b)
  {
    if a != [] {
      assert (a + b)[1..] == a[1..] + b;
      NewlinesAppend(a[1..], b);
    } else {
      assert a + b == b;
    }
  }

  /** Every row ends at a newline of the input, so an input with fewer
      newlines than rows cannot be read. */
  lemma {:induction false} TooFewLines(s: string, width: nat, n: nat)
    requires Newlines(s) < n
    ensures DecodeRows(s, width, n).RowsFailed?
    decreases n
  {
    if width <= |s| && SplitOnce(s[width..], '\n').Some? {
      var before := SplitOnce(s[width..], '\n').value.0;
      var rest := SplitOnce(s[width..], '\n').value.1;
      SplitOnceParts(s[width..], '\n');
      assert s == s[..width] + (before + ['\n'] + rest);
      NewlinesAppend(s[..width], before + ['\n'] + rest);
      NewlinesAppend(before + ['\n'], rest);
      NewlinesAppend(before, ['\n']);
      TooFewLines(rest, width, n - 1);
      DecodeRowsUnfold(s, width, n);
    }
  }

  /** A saved canvas cut short, so that fewer lines than rows follow the
      header, does not load. */
  lemma TruncatedFails(width: nat, height: nat, body: string)
    requires width <= MaxInt64 && height <= MaxInt64 && Newlines(body) < height
    ensures DecodeCanvas(Header(width, height) + body).Failed?
  {
    assert Header(width, height) + body == Decimal(width) + " " + Decimal(height) + "" + "\n" + body;
    HeaderParses(width, height, "", body);
    TooFewLines(body, width, height);
  }

  /** A header line holding one numeral and no space makes loadCanvas
      index a second field that is not there. */
  lemma HeaderWithoutSpacePanics(width: nat, body: string)
    requires width <= MaxInt64
    ensures DecodeCanvas(Decimal(width) + "\n" + body) == Panicked
  {
    var line := Decimal(width);
    assert line + "\n" + body == line + ['\n'] + body;
    SplitOnceAt(line, '\n', body);
    TrimRightStops(line, "\n", {' ', '\n'});
    SplitOnceParts(line, ' ');
    DecimalRoundTrip(width);
  }

  /** The text of a row holding `%` and a space. */
  lemma PercentRowText(row: seq<Pixel>)
    requires row == [Percent, Space]
    ensures RowText(row, 2) == "%!(NOVERB) "
  {
    var first := RowText(row, 1);
    assert RowText(row, 0) == [] && row[0] == Percent;
    assert first == [] + CellText(Percent);
    assert RowText(row, 2) == first + CellText(Space);
    assert "%!(NOVERB)" + " " == "%!(NOVERB) ";
  }

  /** The dump of a one-row canvas holding `%` and a space. */
  lemma PercentDump(c: Grid)
    requires c == [[Percent, Space]]
    ensures DumpText(c, 2, 1) == "%!(NOVERB) \n"
  {
    PercentRowText(c[0]);
    assert DumpText(c, 2, 0) == [];
    assert DumpText(c, 2, 1) == [] + RowText(c[0], 2) + "\n";
    assert [] + "%!(NOVERB) " + "\n" == "%!(NOVERB) \n";
  }

  /** The saved text of that canvas starts with a header loadCanvas reads. */
  lemma PercentHeader()
    ensures DecodeCanvas(SaveText([[Percent, Space]], 2, 1))
         == Finish(2, 1, DecodeRows(DumpText([[Percent, Space]], 2, 1), 2, 1))
  {
    var body := DumpText([[Percent, Space]], 2, 1);
    assert SaveText([[Percent, Space]], 2, 1) == Decimal(2) + " " + Decimal(1) + "" + "\n" + body;
    HeaderParses(2, 1, "", body);
  }

  /** Its one row reads back as `%` and the marker's `!`. */
  lemma PercentRows()
    ensures DecodeRows(DumpText([[Percent, Space]], 2, 1), 2, 1) == Rows([[Percent, '!' as int]], [])
  {
    PercentDump([[Percent, Space]]);
    assert "%!(NOVERB) \n" == "%!" + "(NOVERB) " + "\n" + [];
    SurplusSkipped("%!", 2, "(NOVERB) ", []);
    assert Pixels("%!") == [Percent, '!' as int];
  }

  /** A cell holding `%` is written as fmt's missing-verb marker, so it does
      not read back: the cell after it is read as the marker's `!`. */
  lemma PercentNotRestored()
    ensures DecodeCanvas(SaveText([[Percent, Space]], 2, 1)) == Loaded(2, 1, [[Percent, '!' as int]])
  {
    PercentHeader();
    PercentRows();
  }
}
