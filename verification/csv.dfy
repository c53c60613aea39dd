/**
 * The CSV text built by `ContentViewModel.isCSVAvailable`: an all-zero row
 * as wide as the first row is put in front of the values; every row equal
 * to it renders as the header `x,y1,...`, every other row renders its cells
 * left to right (absent cells as empty fields); fields are joined with `,`
 * and lines with a newline, without a trailing newline.
 */
module Csv {
  import opened Wrappers
  import opened Strings
  import opened Decimals
  import opened Grid

  /** Width of the prepended zero row: the length of the first row, or 1 for an empty grid. */
  function HeaderWidth<T>(values: Cells<T>): nat {
    if |values| == 0 then 1 else |values[0]|
  }

  /** The row compares equal to the zero row: same width, and every cell present and equal to zero. */
  predicate IsZeroRow<T>(row: Row<T>, width: nat, isZero: T -> bool) {
    |row| == width && forall j :: 0 <= j < |row| ==> row[j].Some? && isZero(row[j].value)
  }

  function HeaderField(index: nat): string {
    if index == 0 then "x" else "y" + NatToDigits(index)
  }

  function HeaderFields(width: nat): seq<string> {
    seq(width, (i: int) requires 0 <= i => HeaderField(i))
  }

  function CellField<T>(cell: Option<T>, show: T -> string): string {
    match cell
    case Some(v) => show(v)
    case None => ""
  }

  function DataFields<T>(row: Row<T>, show: T -> string): seq<string> {
    seq(|row|, j requires 0 <= j < |row| => CellField(row[j], show))
  }

  /** No rendered cell of the row contains either separator. */
  predicate PlainRow<T>(row: Row<T>, show: T -> string) {
    forall j :: 0 <= j < |row| && row[j].Some? ==>
      Occurrences(show(row[j].value), ',') == 0 && Occurrences(show(row[j].value), '\n') == 0
  }

  predicate PlainCells<T>(values: Cells<T>, show: T -> string) {
    forall i :: 0 <= i < |values| ==> PlainRow(values[i], show)
  }

  lemma HeaderFieldPlain(index: nat, c: char)
    requires c == ',' || c == '\n'
    ensures Occurrences(HeaderField(index), c) == 0
  {
    DigitsHaveNoOccurrence(NatToDigits(index), c);
    if index > 0 {
      OccurrencesConcat("y", NatToDigits(index), c);
    }
  }

  /** The header line splits into `x`, `y1`, ..., one field per column of the first row. */
  lemma HeaderReadBack(width: nat)
    requires width >= 1
    ensures Split(Join(HeaderFields(width), ','), ',') == HeaderFields(width)
    ensures HeaderFields(width)[0] == "x"
    ensures forall i :: 1 <= i < width ==> HeaderFields(width)[i] == "y" + NatToDigits(i)
  {
    forall i | 0 <= i < width
      ensures Occurrences(HeaderFields(width)[i], ',') == 0
    {
      HeaderFieldPlain(i, ',');
    }
    SplitJoin(HeaderFields(width), ',');
  }

  /** The header line has no newline and, when at least one column wide, splits back into its fields. */
  lemma HeaderLine(width: nat)
    ensures Occurrences(Join(HeaderFields(width), ','), '\n') == 0
    ensures width >= 1 ==> Split(Join(HeaderFields(width), ','), ',') == HeaderFields(width)
  {
    forall i | 0 <= i < width
      ensures Occurrences(HeaderFields(width)[i], '\n') == 0
    {
      HeaderFieldPlain(i, '\n');
    }
    JoinOccurrences(HeaderFields(width), ',', '\n');
    if width >= 1 {
      HeaderReadBack(width);
    }
  }

  /** A plain row's fields, joined with commas, have no newline and split back into those fields. */
  lemma DataLine<T>(row: Row<T>, show: T -> string)
    ensures PlainRow(row, show) ==> Occurrences(Join(DataFields(row, show), ','), '\n') == 0
    ensures PlainRow(row, show) && |row| > 0 ==> Split(Join(DataFields(row, show), ','), ',') == DataFields(row, show)
  {
    if PlainRow(row, show) {
      var fields := DataFields(row, show);
      forall j | 0 <= j < |row|
        ensures Occurrences(fields[j], '\n') == 0 && Occurrences(fields[j], ',') == 0
      {
      }
      JoinOccurrences(fields, ',', '\n');
      if |row| > 0 {
        SplitJoin(fields, ',');
      }
    }
  }

  /**
   * One data row: the header line again if it equals the zero row, its own
   * cells otherwise. The line splits at commas into the header's fields or
   * into the row's own fields, and holds no newline unless a cell's text does.
   */
  function RowLine<T>(row: Row<T>, width: nat, isZero: T -> bool, show: T -> string): (line: string)
    ensures PlainRow(row, show) ==> Occurrences(line, '\n') == 0
    ensures IsZeroRow(row, width, isZero) && width >= 1 ==> Split(line, ',') == HeaderFields(width)
    ensures !IsZeroRow(row, width, isZero) && PlainRow(row, show) && |row| > 0 ==> Split(line, ',') == DataFields(row, show)
  {
    HeaderLine(width);
    DataLine(row, show);
    if IsZeroRow(row, width, isZero) then Join(HeaderFields(width), ',') else Join(DataFields(row, show), ',')
  }

  /**
   * The lines: the zero row, which always renders as the header, followed
   * by one line per row of values.
   */
  function CsvLines<T>(values: Cells<T>, isZero: T -> bool, show: T -> string): (lines: seq<string>)
    ensures |lines| == |values| + 1
    ensures lines[0] == Join(HeaderFields(HeaderWidth(values)), ',')
    ensures HeaderWidth(values) >= 1 ==> Split(lines[0], ',') == HeaderFields(HeaderWidth(values))
    ensures forall k :: 0 <= k < |lines| && (k == 0 || PlainRow(values[k - 1], show)) ==> Occurrences(lines[k], '\n') == 0
    ensures forall i :: 0 <= i < |values| && IsZeroRow(values[i], HeaderWidth(values), isZero) ==> lines[i + 1] == lines[0]
    ensures forall i :: 0 <= i < |values| && !IsZeroRow(values[i], HeaderWidth(values), isZero) && PlainRow(values[i], show) && |values[i]| > 0 ==>
      Split(lines[i + 1], ',') == DataFields(values[i], show)
  {
    var width := HeaderWidth(values);
    HeaderLine(width);
    [Join(HeaderFields(width), ',')] + seq(|values|, i requires 0 <= i < |values| => RowLine(values[i], width, isZero, show))
  }

  /** Lines without newlines, joined with newlines, split back into the same lines. */
  lemma LinesJoin(lines: seq<string>)
    ensures |lines| >= 1 && (forall k :: 0 <= k < |lines| ==> Occurrences(lines[k], '\n') == 0) ==>
      Split(Join(lines, '\n'), '\n') == lines
  {
    if |lines| >= 1 && forall k :: 0 <= k < |lines| ==> Occurrences(lines[k], '\n') == 0 {
      SplitJoin(lines, '\n');
    }
  }

  /**
   * What a reader of `text` finds: one line per row after the header line;
   * the header line is `x`, `y1`, ... joined with commas; a row equal to the
   * zero row reads as the header again; every other non-empty row splits at
   * commas into its own fields, left to right, the first column included.
   */
  predicate ReadsBack<T>(text: string, values: Cells<T>, isZero: T -> bool, show: T -> string) {
    var lines := Split(text, '\n');
    var width := HeaderWidth(values);
    && |lines| == |values| + 1
    && lines[0] == Join(HeaderFields(width), ',')
    && (width >= 1 ==> Split(lines[0], ',') == HeaderFields(width))
    && (forall i :: 0 <= i < |values| && IsZeroRow(values[i], width, isZero) ==> lines[i + 1] == lines[0])
    && (forall i :: 0 <= i < |values| && !IsZeroRow(values[i], width, isZero) && |values[i]| > 0 ==>
          Split(lines[i + 1], ',') == DataFields(values[i], show))
  }

  /** The CSV text: the lines joined with newlines, without a trailing newline. It reads back as the grid. */
  function CsvBody<T>(values: Cells<T>, isZero: T -> bool, show: T -> string): (text: string)
    ensures PlainCells(values, show) ==> ReadsBack(text, values, isZero, show)
  {
    var lines := CsvLines(values, isZero, show);
    LinesJoin(lines);
    Join(lines, '\n')
  }

  /** What `isCSVAvailable` hands to the file write, and the answer it gives. */
  datatype Export = Export(written: string, ok: bool)

  /**
   * `isCSVAvailable`: builds the CSV text, writes it and answers whether
   * the write succeeded; the values are only read. The text written reads
   * back as the grid whenever no cell's text contains a separator.
   */
  function IsCsvAvailable<T>(m: ViewModel<T>, isZero: T -> bool, show: T -> string, write: string -> bool): (r: Export)
    ensures r.ok <==> write(r.written)
    ensures PlainCells(m.values, show) ==> ReadsBack(r.written, m.values, isZero, show)
  {
    var text := CsvBody(m.values, isZero, show);
    Export(text, write(text))
  }

  /** Swift's text for a `Double` never contains a comma or a newline. */
  lemma DescriptionPlain(d: Decimal)
    ensures Occurrences(Description(d), ',') == 0 && Occurrences(Description(d), '\n') == 0
  {
    DescriptionReadsBack(d);
    OccurrencesZero(Description(d), ',');
    OccurrencesZero(Description(d), '\n');
  }

  /** With the cells printed as Swift prints a `Double`, the exported text of any grid reads back as the grid. */
  lemma ExportReadsBack(m: ViewModel<Decimal>, write: string -> bool)
    ensures ReadsBack(IsCsvAvailable(m, IsZero, Description, write).written, m.values, IsZero, Description)
  {
    forall i, j | 0 <= i < |m.values| && 0 <= j < |m.values[i]| && m.values[i][j].Some?
      ensures Occurrences(Description(m.values[i][j].value), ',') == 0
      ensures Occurrences(Description(m.values[i][j].value), '\n') == 0
    {
      DescriptionPlain(m.values[i][j].value);
    }
    assert PlainCells(m.values, Description);
  }

  function Whole(n: nat): Option<Decimal> {
    Some(Decimal(false, n, 0))
  }

  lemma PaddedTenfold(n: nat)
    requires n < 10
    ensures PaddedDigits(Decimal(false, n * 10, 1)) == [DigitChar(n), '0']
  {
    assert DigitChar(0) == '0';
    if n == 0 {
      assert NatToDigits(0) == "0";
      assert Zeros(1) == "0";
    } else {
      assert (n * 10) / 10 == n && (n * 10) % 10 == 0;
      assert NatToDigits(n * 10) == [DigitChar(n), '0'];
      assert Zeros(0) == "";
    }
  }

  lemma ShowTenfold(n: nat)
    requires n < 10
    ensures Show(Decimal(false, n * 10, 1)) == [DigitChar(n), '.', '0']
  {
    PaddedTenfold(n);
  }

  /** A one-digit whole number prints as that digit followed by `.0`. */
  lemma DescriptionWhole(n: nat)
    requires n < 10
    ensures Description(Decimal(false, n, 0)) == [DigitChar(n), '.', '0']
  {
    assert Trimmed(Decimal(false, n, 0)) == Decimal(false, n, 0);
    assert Shown(Decimal(false, n, 0)) == Decimal(false, n * 10, 1);
    ShowTenfold(n);
  }

  lemma JoinPair(a: string, b: string, separator: char)
    ensures Join([a, b], separator) == a + [separator] + b
  {
    assert [a, b][1..] == [b];
  }

  lemma JoinTriple(a: string, b: string, c: string, separator: char)
    ensures Join([a, b, c], separator) == a + [separator] + b + [separator] + c
  {
    assert [a, b, c][1..] == [b, c];
    JoinPair(b, c, separator);
  }

  lemma HeaderTwo()
    ensures Join(HeaderFields(2), ',') == "x,y1"
  {
    assert NatToDigits(1) == "1";
    assert HeaderField(0) == "x";
    assert HeaderField(1) == "y1";
    assert HeaderFields(2) == [HeaderField(0), HeaderField(1)];
    JoinPair("x", "y1", ',');
  }

  lemma RowLineCases<T>(row: Row<T>, width: nat, isZero: T -> bool, show: T -> string)
    ensures IsZeroRow(row, width, isZero) ==> RowLine(row, width, isZero, show) == Join(HeaderFields(width), ',')
    ensures !IsZeroRow(row, width, isZero) ==> RowLine(row, width, isZero, show) == Join(DataFields(row, show), ',')
  {
  }

  lemma WholeFields(row: Row<Decimal>, a: nat, b: nat)
    requires a < 10 && b < 10 && row == [Whole(a), Whole(b)]
    ensures DataFields(row, Description) == [[DigitChar(a), '.', '0'], [DigitChar(b), '.', '0']]
  {
    DescriptionWhole(a);
    DescriptionWhole(b);
  }

  /** A row of two one-digit whole numbers, the first nonzero, renders as the two numbers' Swift text. */
  lemma WholeRowLine(row: Row<Decimal>, a: nat, b: nat)
    requires 0 < a < 10 && b < 10 && row == [Whole(a), Whole(b)]
    ensures RowLine(row, 2, IsZero, Description) == [DigitChar(a), '.', '0', ',', DigitChar(b), '.', '0']
  {
    assert !IsZero(row[0].value);
    RowLineCases(row, 2, IsZero, Description);
    WholeFields(row, a, b);
    var x, y := [DigitChar(a), '.', '0'], [DigitChar(b), '.', '0'];
    assert RowLine(row, 2, IsZero, Description) == Join([x, y], ',');
    JoinPair(x, y, ',');
    assert x + [','] + y == [DigitChar(a), '.', '0', ',', DigitChar(b), '.', '0'];
  }

  lemma ThreeLines(lines: seq<string>, a: string, b: string, c: string)
    requires |lines| == 3 && lines[0] == a && lines[1] == b && lines[2] == c
    ensures lines == [a, b, c]
  {
  }

  lemma CsvLinesRows<T>(values: Cells<T>, isZero: T -> bool, show: T -> string)
    ensures forall i :: 0 <= i < |values| ==>
      CsvLines(values, isZero, show)[i + 1] == RowLine(values[i], HeaderWidth(values), isZero, show)
  {
  }

  lemma TwoByTwoLines(v: Cells<Decimal>)
    requires v == [[Whole(1), Whole(2)], [Whole(3), Whole(4)]]
    ensures CsvLines(v, IsZero, Description) == ["x,y1", "1.0,2.0", "3.0,4.0"]
  {
    var lines := CsvLines(v, IsZero, Description);
    assert HeaderWidth(v) == 2;
    HeaderTwo();
    CsvLinesRows(v, IsZero, Description);
    WholeRowLine(v[0], 1, 2);
    WholeRowLine(v[1], 3, 4);
    assert DigitChar(1) == '1' && DigitChar(2) == '2' && DigitChar(3) == '3' && DigitChar(4) == '4';
    assert lines[0] == "x,y1";
    assert lines[1] == "1.0,2.0";
    assert lines[2] == "3.0,4.0";
    assert |lines| == |v| + 1 == 3;
    ThreeLines(lines, "x,y1", "1.0,2.0", "3.0,4.0");
  }

  /**
   * A 2x2 grid: the header has one `y` column, the first column carries the
   * data (nothing is synthesised) and every number prints as a `Double`.
   */
  lemma ExampleTwoByTwo(v: Cells<Decimal>)
    requires v == [[Whole(1), Whole(2)], [Whole(3), Whole(4)]]
    ensures CsvBody(v, IsZero, Description) == "x,y1" + "\n" + "1.0,2.0" + "\n" + "3.0,4.0"
  {
    TwoByTwoLines(v);
    JoinTriple("x,y1", "1.0,2.0", "3.0,4.0", '\n');
  }

  lemma ZeroRowLine(row: Row<Decimal>)
    requires row == [Whole(0), Whole(0)]
    ensures RowLine(row, 2, IsZero, Description) == "x,y1"
  {
    assert IsZeroRow(row, 2, IsZero);
    RowLineCases(row, 2, IsZero, Description);
    HeaderTwo();
  }

  lemma BlankCellFields(row: Row<Decimal>)
    requires row == [Whole(1), None]
    ensures DataFields(row, Description) == ["1.0", ""]
  {
    DescriptionWhole(1);
    assert DigitChar(1) == '1';
  }

  lemma BlankCellLine(row: Row<Decimal>)
    requires row == [Whole(1), None]
    ensures RowLine(row, 2, IsZero, Description) == "1.0,"
  {
    assert !IsZero(row[0].value);
    RowLineCases(row, 2, IsZero, Description);
    BlankCellFields(row);
    JoinPair("1.0", "", ',');
  }

  lemma ZeroRowLines(v: Cells<Decimal>)
    requires v == [[Whole(0), Whole(0)], [Whole(1), None]]
    ensures CsvLines(v, IsZero, Description) == ["x,y1", "x,y1", "1.0,"]
  {
    var lines := CsvLines(v, IsZero, Description);
    assert HeaderWidth(v) == 2;
    HeaderTwo();
    CsvLinesRows(v, IsZero, Description);
    ZeroRowLine(v[0]);
    BlankCellLine(v[1]);
    assert lines[0] == "x,y1";
    assert lines[1] == "x,y1";
    assert lines[2] == "1.0,";
    assert |lines| == |v| + 1 == 3;
    ThreeLines(lines, "x,y1", "x,y1", "1.0,");
  }

  /** A data row of zeros renders as a second header line; an empty cell is an empty field. */
  lemma ExampleZeroRow(v: Cells<Decimal>)
    requires v == [[Whole(0), Whole(0)], [Whole(1), None]]
    ensures CsvBody(v, IsZero, Description) == "x,y1" + "\n" + "x,y1" + "\n" + "1.0,"
  {
    ZeroRowLines(v);
    JoinTriple("x,y1", "x,y1", "1.0,", '\n');
  }
}
