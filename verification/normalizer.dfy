/** The record normaliser of `procesar_archivo_asc`: the first decoded line
    gives the header, and every later line becomes one record of exactly as
    many cells as the header has columns. */
module Normalizer {
  import opened TextOps
  import opened Cleaner

  /** The header and the records handed to the spreadsheet writer. */
  datatype Table = Table(header: seq<string>, rows: seq<seq<string>>)

  /** A document with no line at all has no header to read. */
  datatype ConvertError = EmptyInput

  datatype Result<T> = Success(value: T) | Failure(error: ConvertError)

  /** Every string is a finished cell: no control character, no whitespace
      at either end and no delimiter.  By CleanFixedPoints these are exactly
      the delimiter-free strings that cleaning leaves as they are. */
  predicate AllClean(cells: seq<string>)
  {
    forall k :: 0 <= k < |cells| ==>
      NoControl(cells[k]) && NoEdgeWhitespace(cells[k]) && Delimiter !in cells[k]
  }

  /** The width invariant of a table, with clean cells throughout. */
  predicate WellFormed(t: Table)
  {
    |t.header| >= 1 && AllClean(t.header)
    && forall row :: row in t.rows ==> |row| == |t.header| && AllClean(row)
  }

  /** The list comprehension that cleans every piece of a split line, one
      cell per piece; CleanAllAt says what each cell holds. */
  function CleanAll(pieces: seq<string>): (cells: seq<string>)
    ensures |cells| == |pieces|
  {
    if pieces == [] then [] else [Clean(pieces[0])] + CleanAll(pieces[1..])
  }

  /** Cell k is piece k cleaned. */
  lemma {:induction false} CleanAllAt(pieces: seq<string>, k: nat)
    requires k < |pieces|
    ensures CleanAll(pieces)[k] == Clean(pieces[k])
  {
    if k > 0 {
      CleanAllAt(pieces[1..], k - 1);
    }
  }

  /** Cleaned pieces of a split line are finished cells. */
  lemma CleanedPiecesAreCells(pieces: seq<string>)
    requires forall k :: 0 <= k < |pieces| ==> Delimiter !in pieces[k]
    ensures AllClean(CleanAll(pieces))
  {
    forall k | 0 <= k < |pieces|
      ensures var c := CleanAll(pieces)[k];
        NoControl(c) && NoEdgeWhitespace(c) && Delimiter !in c
    {
      CleanAllAt(pieces, k);
      CleanAddsNothing(pieces[k], Delimiter);
    }
  }

  /** The header: one column per delimiter of the stripped first line, plus
      one, so never fewer than one column; every name is a finished cell. */
  function Header(firstLine: string): (header: seq<string>)
    ensures |header| == Occurrences(Strip(firstLine), Delimiter) + 1
    ensures AllClean(header)
  {
    var pieces := Split(Strip(firstLine));
    CleanedPiecesAreCells(pieces);
    CleanAll(pieces)
  }

  /** Column k of the header is the k-th piece of the stripped first line,
      cleaned. */
  lemma HeaderShape(firstLine: string, k: nat)
    requires k < |Header(firstLine)|
    ensures Header(firstLine)[k] == Clean(Split(Strip(firstLine))[k])
  {
    CleanAllAt(Split(Strip(firstLine)), k);
  }

  /** A data line stripped, its line breaks replaced by the marker, and
      split: every line break adds one piece. */
  function Pieces(line: string): (pieces: seq<string>)
    ensures |pieces| == Occurrences(Strip(line), Delimiter) + Occurrences(Strip(line), '\n') + 1
    ensures forall k :: 0 <= k < |pieces| ==> Delimiter !in pieces[k]
  {
    Split(MarkLineBreaks(Strip(line)))
  }

  /** `[''] * count`. */
  function Padding(count: nat): (cells: seq<string>)
    ensures |cells| == count && forall k :: 0 <= k < count ==> cells[k] == ""
  {
    if count == 0 then [] else [""] + Padding(count - 1)
  }

  /** Truncation or padding to the header's width: the result has exactly
      `width` cells, the leading cells are those of `cells` in their order,
      the excess is dropped and the shortfall is filled with empty cells. */
  function FitWidth(cells: seq<string>, width: nat): (row: seq<string>)
    ensures |row| == width
    ensures forall k :: 0 <= k < width && k < |cells| ==> row[k] == cells[k]
    ensures forall k :: |cells| <= k < width ==> row[k] == ""
  {
    if |cells| > width then cells[..width]
    else if |cells| < width then cells + Padding(width - |cells|)
    else cells
  }

  /** The record read from one data line, as wide as the header;
      NormalizeRowShape says which cells it holds. */
  function NormalizeRow(line: string, width: nat): (row: seq<string>)
    ensures |row| == width
  {
    FitWidth(CleanAll(Pieces(line)), width)
  }

  /** The record read from a data line: exactly `width` cells, the k-th
      being the cleaned k-th piece of the line where there is one and the
      empty cell where the line is short; every cell is finished. */
  lemma NormalizeRowShape(line: string, width: nat)
    ensures |NormalizeRow(line, width)| == width
    ensures forall k :: 0 <= k < width && k < |Pieces(line)| ==>
      NormalizeRow(line, width)[k] == Clean(Pieces(line)[k])
    ensures forall k :: |Pieces(line)| <= k < width ==> NormalizeRow(line, width)[k] == ""
    ensures AllClean(NormalizeRow(line, width))
  {
    var pieces := Pieces(line);
    var cells := CleanAll(pieces);
    CleanedPiecesAreCells(pieces);
    var row := FitWidth(cells, width);
    forall k | 0 <= k < width && k < |pieces|
      ensures row[k] == Clean(pieces[k])
    {
      CleanAllAt(pieces, k);
    }
    assert forall k :: 0 <= k < width ==> row[k] == "" || row[k] == cells[k];
  }

  /** The records read from successive data lines, one per line, in order. */
  function Records(lines: seq<string>, width: nat): (rows: seq<seq<string>>)
    ensures |rows| == |lines|
  {
    if lines == [] then [] else Records(lines[..|lines| - 1], width) + [NormalizeRow(lines[|lines| - 1], width)]
  }

  /** Record i is read from line i alone, so every record is as wide as the
      header and made of finished cells. */
  lemma {:induction false} RecordsAt(lines: seq<string>, width: nat, i: nat)
    requires i < |lines|
    ensures Records(lines, width)[i] == NormalizeRow(lines[i], width)
    ensures |Records(lines, width)[i]| == width && AllClean(Records(lines, width)[i])
  {
    if i < |lines| - 1 {
      RecordsAt(lines[..|lines| - 1], width, i);
    } else {
      NormalizeRowShape(lines[i], width);
    }
  }

  lemma RecordsSnoc(lines: seq<string>, width: nat, i: nat)
    requires 1 <= i < |lines|
    ensures Records(lines[1..i + 1], width) == Records(lines[1..i], width) + [NormalizeRow(lines[i], width)]
  {
    var done := lines[1..i + 1];
    assert done[..|done| - 1] == lines[1..i];
  }

  /** One pass of the row loop: clean the pieces of the line, then cut the
      list down to the header's width or extend it with empty cells. */
  method ReadRecord(line: string, width: nat) returns (row: seq<string>)
    ensures row == NormalizeRow(line, width)
  {
    row := CleanAll(Pieces(line));
    if |row| > width {
      row := row[..width];
    } else if |row| < width {
      row := row + Padding(width - |row|);
    }
  }

  /** The header and row stages of `procesar_archivo_asc`, from the decoded
      lines.  An empty document is an error; otherwise the header comes from
      the first line and record i from line i + 1 alone, in order, each as
      wide as the header. */
  method ConvertLines(lines: seq<string>) returns (result: Result<Table>)
    ensures result.Failure? <==> lines == []
    ensures result.Success? ==>
      |lines| >= 1 && result.value.header == Header(lines[0])
      && |result.value.rows| == |lines| - 1
      && forall i :: 0 <= i < |lines| - 1 ==>
        result.value.rows[i] == NormalizeRow(lines[i + 1], |result.value.header|)
    ensures result.Success? ==> WellFormed(result.value)
  {
    if |lines| == 0 {
      return Failure(EmptyInput);
    }
    var header := Header(lines[0]);
    var width := |header|;
    var rows: seq<seq<string>> := [];
    for i := 1 to |lines|
      invariant rows == Records(lines[1..i], width)
    {
      var row := ReadRecord(lines[i], width);
      RecordsSnoc(lines, width, i);
      rows := rows + [row];
    }
    assert lines[1..|lines|] == lines[1..];
    forall j | 0 <= j < |lines| - 1
      ensures rows[j] == NormalizeRow(lines[j + 1], width)
      ensures |rows[j]| == width && AllClean(rows[j])
    {
      RecordsAt(lines[1..], width, j);
    }
    return Success(Table(header, rows));
  }

  /** Cleaning every finished cell changes nothing. */
  lemma CleanAllFixes(cells: seq<string>)
    requires AllClean(cells)
    ensures CleanAll(cells) == cells
  {
    forall k | 0 <= k < |cells|
      ensures CleanAll(cells)[k] == cells[k]
    {
      CleanAllAt(cells, k);
      CleanFixedPoints(cells[k]);
    }
  }

  /** Reading back a record that was written as one line of the format
      (finished cells joined by the delimiter, with or without the final
      line break) gives the cells fitted to the width; at the record's own
      width it gives the record itself. */
  lemma RowRoundTrip(cells: seq<string>, width: nat)
    requires |cells| >= 1 && AllClean(cells)
    ensures NormalizeRow(Join(cells) + "\n", width) == FitWidth(cells, width)
    ensures NormalizeRow(Join(cells), width) == FitWidth(cells, width)
    ensures NormalizeRow(Join(cells) + "\n", |cells|) == cells
  {
    assert IsControl('\n');
    JoinedLine(cells);
    SplitJoin(cells);
    assert Pieces(Join(cells)) == cells;
    assert Pieces(Join(cells) + "\n") == cells;
    CleanAllFixes(cells);
  }

  /** Reading back a header line written from finished column names gives
      the same names. */
  lemma HeaderRoundTrip(names: seq<string>)
    requires |names| >= 1 && AllClean(names)
    ensures Header(Join(names) + "\n") == names
  {
    assert IsControl('\n');
    JoinedLine(names);
    SplitJoin(names);
    CleanAllFixes(names);
  }

  /** A line as `readlines` returns it holds a line break at most at its
      end; stripping removes that break first, so the replacement by the
      marker never changes such a line and adds no piece. */
  lemma MarkerInertOnReadLines(line: string)
    requires forall k :: 0 <= k < |line| - 1 ==> line[k] != '\n'
    ensures MarkLineBreaks(Strip(line)) == Strip(line)
    ensures |Pieces(line)| == Occurrences(Strip(line), Delimiter) + 1
  {
    var r := Strip(line);
    StripSlice(line);
    var i :| 0 <= i <= |line| - |r| && r == line[i..i + |r|]
             && AllWhitespace(line[..i]) && AllWhitespace(line[i + |r|..]);
    forall k | 0 <= k < |r|
      ensures r[k] != '\n'
    {
      assert r[k] == line[i + k];
      if i + k == |line| - 1 {
        assert k == |r| - 1 && !IsWhitespace(r[k]);
      }
    }
  }

  /** The cells of the sample table's records are finished cells. */
  lemma ScenarioCells()
    ensures AllClean(["2", "Luis"])
    ensures AllClean(["3", "Eva", "Quito", "Extra"])
  {
  }

  /** The sample table with columns `ID|Name|City`: a short record is
      padded with an empty cell. */
  lemma ScenarioShortRow()
    ensures NormalizeRow(Join(["2", "Luis"]) + "\n", 3) == ["2", "Luis", ""]
  {
    var cells := ["2", "Luis"];
    ScenarioCells();
    RowRoundTrip(cells, 3);
    assert FitWidth(cells, 3) == cells + [""];
  }

  /** The sample table with columns `ID|Name|City`: a long record loses its
      extra field. */
  lemma ScenarioLongRow()
    ensures NormalizeRow(Join(["3", "Eva", "Quito", "Extra"]) + "\n", 3) == ["3", "Eva", "Quito"]
  {
    var cells := ["3", "Eva", "Quito", "Extra"];
    ScenarioCells();
    RowRoundTrip(cells, 3);
    assert FitWidth(cells, 3) == cells[..3];
  }
}
