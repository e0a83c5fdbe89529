/**
 * The text form of a puzzle: nine lines of nine entries, a digit for a clue
 * and a marker (normally '.') for an empty cell.
 */
module Sudoku {
  import opened Base
  import Lib

  const FormatError := "Invalid sudoku format!"

  // ---------------------------------------------------------------------
  // Splitting the text into lines, as Rust's `str::lines` does.

  /** The index of the first newline of `s`. */
  function NewlineIndex(s: string): (i: nat)
    requires '\n' in s
    ensures i < |s| && s[i] == '\n' && '\n' !in s[..i]
  {
    if s[0] == '\n' then 0 else 1 + NewlineIndex(s[1..])
  }

  /** A line ended by "\r\n" loses its carriage return. */
  function StripCarriageReturn(line: string): string
  {
    if |line| > 0 && line[|line| - 1] == '\r' then line[..|line| - 1] else line
  }

  /** The lines of `s`: split at each '\n'; a final line ending adds no empty line. */
  function Lines(s: string): seq<string>
    decreases |s|
  {
    if s == [] then []
    else if '\n' in s then
      var i := NewlineIndex(s);
      [StripCarriageReturn(s[..i])] + Lines(s[i + 1..])
    else [s]
  }

  /** A line followed by a newline is split off as the first line. */
  lemma LinesCons(line: string, rest: string)
    requires '\n' !in line && (|line| == 0 || line[|line| - 1] != '\r')
    ensures Lines(line + "\n" + rest) == [line] + Lines(rest)
  {
    var s := line + "\n" + rest;
    assert s[|line|] == '\n';
    var i := NewlineIndex(s);
    assert i == |line|;
    assert s[..i] == line;
    assert s[i + 1..] == rest;
  }

  /** The same, with the newline grouped with what follows it. */
  lemma LinesConsRight(line: string, rest: string)
    requires '\n' !in line && (|line| == 0 || line[|line| - 1] != '\r')
    ensures Lines(line + ("\n" + rest)) == [line] + Lines(rest)
  {
    assert line + ("\n" + rest) == line + "\n" + rest;
    LinesCons(line, rest);
  }

  // ---------------------------------------------------------------------
  // The entries of one line.

  /**
   * `line.split("")`: an empty piece, one piece per character, and another
   * empty piece.
   */
  function Pieces(line: string): seq<string>
  {
    [""] + CharPieces(line) + [""]
  }

  function CharPieces(line: string): (pieces: seq<string>)
    ensures |pieces| == |line| && forall i :: 0 <= i < |line| ==> pieces[i] == [line[i]]
  {
    if line == [] then [] else [[line[0]]] + CharPieces(line[1..])
  }

  /**
   * What one piece adds to the row: `None` when it is the empty marker, and
   * `Some(n)` when it parses as an `i32`; both for a marker that is a number.
   */
  function PieceEntries(piece: string, emptyValue: string): seq<Option<int>>
  {
    (if piece == emptyValue then [None] else [])
    + (match Lib.ParseI32(piece) case Some(n) => [Some(n)] case None => [])
  }

  /** The entries of a sequence of pieces, in order. */
  function EntriesOf(pieces: seq<string>, emptyValue: string): seq<Option<int>>
  {
    if pieces == [] then [] else EntriesOf(pieces[..|pieces| - 1], emptyValue) + PieceEntries(pieces[|pieces| - 1], emptyValue)
  }

  function LineEntries(line: string, emptyValue: string): seq<Option<int>>
  {
    EntriesOf(Pieces(line), emptyValue)
  }

  /** What `clues_from_string` returns. */
  function Clues(buf: string, emptyValue: string): Result<Grid>
  {
    var lines := Lines(buf);
    if |lines| < 9 then Err(FormatError)
    else if exists i :: 0 <= i < |lines| && |LineEntries(lines[i], emptyValue)| != 9 then Err(FormatError)
    else Ok(seq(|lines|, i requires 0 <= i < |lines| => LineEntries(lines[i], emptyValue)))
  }

  // ---------------------------------------------------------------------
  // The parser and the printer, with the source's loops.

  method LineToRow(line: string, emptyValue: string) returns (rowBuf: seq<Option<int>>)
    ensures rowBuf == LineEntries(line, emptyValue)
  {
    var pieces := Pieces(line);
    rowBuf := [];
    for k := 0 to |pieces|
      invariant rowBuf == EntriesOf(pieces[..k], emptyValue)
    {
      EntriesOfStep(pieces, k, emptyValue);
      ghost var before := rowBuf;
      var empty: seq<Option<int>> := [];
      if pieces[k] == emptyValue {
        rowBuf := rowBuf + [None];
        empty := [None];
      }
      var parsed := Lib.ParseI32(pieces[k]);
      if parsed.Some? {
        AppendAssoc(before, empty, [Some(parsed.value)]);
        rowBuf := rowBuf + [Some(parsed.value)];
      } else {
        AppendEmpty(empty);
      }
    }
    assert pieces[..|pieces|] == pieces;
  }

  lemma EntriesOfStep(pieces: seq<string>, k: int, emptyValue: string)
    requires 0 <= k < |pieces|
    ensures EntriesOf(pieces[..k + 1], emptyValue) == EntriesOf(pieces[..k], emptyValue) + PieceEntries(pieces[k], emptyValue)
  {
    assert pieces[..k + 1][..k] == pieces[..k];
  }

  method CluesFromString(buf: string, emptyValue: string) returns (result: Result<Grid>)
    ensures result == Clues(buf, emptyValue)
  {
    var lines := Lines(buf);
    if |lines| < 9 {
      return Err(FormatError);
    }
    var clues: Grid := [];
    for i := 0 to |lines|
      invariant |clues| == i
      invariant forall j :: 0 <= j < i ==> clues[j] == LineEntries(lines[j], emptyValue)
      invariant forall j :: 0 <= j < i ==> |LineEntries(lines[j], emptyValue)| == 9
    {
      var rowBuf := LineToRow(lines[i], emptyValue);
      if |rowBuf| != 9 {
        assert |LineEntries(lines[i], emptyValue)| != 9;
        return Err(FormatError);
      }
      clues := clues + [rowBuf];
    }
    assert !exists i :: 0 <= i < |lines| && |LineEntries(lines[i], emptyValue)| != 9;
    assert clues == seq(|lines|, i requires 0 <= i < |lines| => LineEntries(lines[i], emptyValue));
    return Ok(clues);
  }

  /** `to_string` of an `i32`. */
  function IntToString(v: int): string
  {
    if v < 0 then "-" + Lib.DecimalString(-v) else Lib.DecimalString(v)
  }

  function CellString(entry: Option<int>): string
  {
    match entry
    case Some(v) => IntToString(v)
    case None => "."
  }

  /** The first nine entries of a row, in order. */
  function CellsString(cells: seq<Option<int>>): string
  {
    if cells == [] then "" else CellString(cells[0]) + CellsString(cells[1..])
  }

  function Take<T>(s: seq<T>, n: nat): seq<T>
  {
    if |s| <= n then s else s[..n]
  }

  function RowString(row: seq<Option<int>>): string
  {
    CellsString(Take(row, 9))
  }

  /** Each row's string followed by a newline. */
  function RowsString(rows: seq<seq<Option<int>>>): string
  {
    if rows == [] then "" else RowString(rows[0]) + "\n" + RowsString(rows[1..])
  }

  /** What `string_from_grid` returns: the first nine rows, each cut to nine entries and ended by '\n'. */
  function GridString(grid: Grid): string
  {
    RowsString(Take(grid, 9))
  }

  lemma {:induction false} CellsStringSnoc(cells: seq<Option<int>>, entry: Option<int>)
    ensures CellsString(cells + [entry]) == CellsString(cells) + CellString(entry)
  {
    if cells != [] {
      assert (cells + [entry])[1..] == cells[1..] + [entry];
      CellsStringSnoc(cells[1..], entry);
    } else {
      assert (cells + [entry])[1..] == [];
    }
  }

  lemma {:induction false} RowsStringSnoc(rows: seq<seq<Option<int>>>, row: seq<Option<int>>)
    ensures RowsString(rows + [row]) == RowsString(rows) + RowString(row) + "\n"
  {
    if rows != [] {
      assert (rows + [row])[1..] == rows[1..] + [row];
      RowsStringSnoc(rows[1..], row);
      var first, rest, last := RowString(rows[0]), RowsString(rows[1..]), RowString(row);
      assert RowsString(rows + [row]) == first + "\n" + (rest + last + "\n");
      AppendAssoc(rest, last, "\n");
      AppendAssoc(first + "\n", rest, last + "\n");
      AppendAssoc(first + "\n" + rest, last, "\n");
    } else {
      assert (rows + [row])[1..] == [];
    }
  }

  method RowToString(row: seq<Option<int>>) returns (line: string)
    ensures line == RowString(row)
  {
    var cells := Take(row, 9);
    line := "";
    for k := 0 to |cells|
      invariant line == CellsString(cells[..k])
    {
      assert cells[..k + 1] == cells[..k] + [cells[k]];
      CellsStringSnoc(cells[..k], cells[k]);
      match cells[k]
      case Some(v) =>
        line := line + IntToString(v);
      case None =>
        line := line + ".";
    }
    assert cells[..|cells|] == cells;
  }

  method StringFromGrid(grid: Grid) returns (returnString: string)
    ensures returnString == GridString(grid)
  {
    var rows := Take(grid, 9);
    returnString := "";
    for i := 0 to |rows|
      invariant returnString == RowsString(rows[..i])
    {
      assert rows[..i + 1] == rows[..i] + [rows[i]];
      RowsStringSnoc(rows[..i], rows[i]);
      var line := RowToString(rows[i]);
      returnString := returnString + line;
      returnString := returnString + "\n";
    }
    assert rows[..|rows|] == rows;
  }

  // ---------------------------------------------------------------------
  // Properties of the parser.

  /** Fewer than nine lines is an error. */
  lemma TooFewLines(buf: string, emptyValue: string)
    requires |Lines(buf)| < 9
    ensures Clues(buf, emptyValue).Err?
  {
  }

  /** A line with other than nine entries is an error, whatever the other lines hold. */
  lemma WrongLineLength(buf: string, emptyValue: string, i: int)
    requires 0 <= i < |Lines(buf)| && |LineEntries(Lines(buf)[i], emptyValue)| != 9
    ensures Clues(buf, emptyValue).Err?
  {
  }

  /** On success there are at least nine rows, one per line, each of nine entries. */
  lemma CluesShape(buf: string, emptyValue: string)
    requires Clues(buf, emptyValue).Ok?
    ensures var grid := Clues(buf, emptyValue).value;
      |grid| == |Lines(buf)| >= 9 && forall i :: 0 <= i < |grid| ==> |grid[i]| == 9
  {
  }

  /** With the '.' marker, a character adds `None` for '.', its digit for a digit, and nothing otherwise. */
  function DotEntry(c: char): seq<Option<int>>
  {
    if c == '.' then [None] else if Lib.IsDigit(c) then [Some((c - '0') as int)] else []
  }

  function DotEntries(line: string): seq<Option<int>>
  {
    if line == [] then [] else DotEntries(line[..|line| - 1]) + DotEntry(line[|line| - 1])
  }

  lemma CharPieceEntries(c: char)
    ensures PieceEntries([c], ".") == DotEntry(c)
  {
    if Lib.IsDigit(c) {
      assert [c][..0] == [];
      assert Lib.DigitsValue([c]) == (c - '0') as int;
    }
  }

  lemma {:induction false} EntriesOfAppend(p: seq<string>, q: seq<string>, emptyValue: string)
    ensures EntriesOf(p + q, emptyValue) == EntriesOf(p, emptyValue) + EntriesOf(q, emptyValue)
  {
    if q != [] {
      var q0 := q[..|q| - 1];
      assert (p + q)[..|p + q| - 1] == p + q0;
      assert (p + q)[|p + q| - 1] == q[|q| - 1];
      EntriesOfAppend(p, q0, emptyValue);
    } else {
      assert p + q == p;
    }
  }

  lemma {:induction false} CharPiecesEntries(line: string)
    ensures EntriesOf(CharPieces(line), ".") == DotEntries(line)
  {
    if line != [] {
      var init := line[..|line| - 1];
      var last := line[|line| - 1];
      assert CharPieces(line) == CharPieces(init) + [[last]];
      CharPiecesEntries(init);
      EntriesOfAppend(CharPieces(init), [[last]], ".");
      assert EntriesOf([[last]], ".") == PieceEntries([last], ".") by {
        assert [[last]][..0] == [];
      }
      CharPieceEntries(last);
    }
  }

  /** With the '.' marker: '.' gives None, a digit gives its value, every other character (a space, say) is skipped. */
  lemma DotLineEntries(line: string)
    ensures LineEntries(line, ".") == DotEntries(line)
  {
    assert EntriesOf([""], ".") == [] by {
      assert [""][..0] == [];
    }
    EntriesOfAppend([""] + CharPieces(line), [""], ".");
    EntriesOfAppend([""], CharPieces(line), ".");
    CharPiecesEntries(line);
  }

  /** Characters other than '.' and digits at the head of a line, such as indentation, change nothing. */
  lemma {:induction false} SkippedPrefix(prefix: string, line: string)
    requires forall i :: 0 <= i < |prefix| ==> prefix[i] != '.' && !Lib.IsDigit(prefix[i])
    ensures LineEntries(prefix + line, ".") == LineEntries(line, ".")
  {
    DotLineEntries(prefix + line);
    DotLineEntries(line);
    DotEntriesSkip(prefix, line);
  }

  lemma {:induction false} DotEntriesSkip(prefix: string, line: string)
    requires forall i :: 0 <= i < |prefix| ==> prefix[i] != '.' && !Lib.IsDigit(prefix[i])
    ensures DotEntries(prefix + line) == DotEntries(line)
    decreases |line|, |prefix|
  {
    if line == [] {
      assert prefix + line == prefix;
      DotEntriesNone(prefix);
    } else {
      var init := line[..|line| - 1];
      assert (prefix + line)[..|prefix + line| - 1] == prefix + init;
      DotEntriesSkip(prefix, init);
    }
  }

  lemma {:induction false} DotEntriesNone(s: string)
    requires forall i :: 0 <= i < |s| ==> s[i] != '.' && !Lib.IsDigit(s[i])
    ensures DotEntries(s) == []
  {
    if s != [] {
      DotEntriesNone(s[..|s| - 1]);
    }
  }

  // ---------------------------------------------------------------------
  // The round trip.

  /** A grid of nine rows of nine entries, each empty or a digit 0..9: what the text form can hold. */
  predicate SingleDigitGrid(grid: Grid)
  {
    |grid| == 9 && forall i :: 0 <= i < 9 ==> |grid[i]| == 9 && SingleDigitCells(grid[i])
  }

  predicate SingleDigitCells(cells: seq<Option<int>>)
  {
    forall j :: 0 <= j < |cells| ==> (cells[j].Some? ==> 0 <= cells[j].value <= 9)
  }

  /** A printed row of single digits and empty cells is a line: no break in it, one character per entry. */
  lemma CellsStringEntries(cells: seq<Option<int>>)
    requires SingleDigitCells(cells)
    ensures DotEntries(CellsString(cells)) == cells
    ensures '\n' !in CellsString(cells) && (|CellsString(cells)| == 0 || CellsString(cells)[|CellsString(cells)| - 1] != '\r')
    ensures |CellsString(cells)| == |cells|
  {
    CellsStringDots(cells);
    CellsStringChars(cells);
  }

  /** A single digit or an empty cell prints as one character that reads back as itself. */
  lemma CellStringChar(entry: Option<int>)
    requires entry.Some? ==> 0 <= entry.value <= 9
    ensures |CellString(entry)| == 1
    ensures CellString(entry)[0] == '.' || Lib.IsDigit(CellString(entry)[0])
    ensures DotEntry(CellString(entry)[0]) == [entry]
  {
  }

  lemma {:induction false} CellsStringDots(cells: seq<Option<int>>)
    requires SingleDigitCells(cells)
    ensures DotEntries(CellsString(cells)) == cells
  {
    if cells != [] {
      var init := cells[..|cells| - 1];
      var last := cells[|cells| - 1];
      assert cells == init + [last];
      assert SingleDigitCells(init) by {
        forall j | 0 <= j < |init| ensures init[j].Some? ==> 0 <= init[j].value <= 9 {
          assert init[j] == cells[j];
        }
      }
      CellsStringSnoc(init, last);
      CellsStringDots(init);
      CellStringChar(last);
      var s := CellsString(init) + CellString(last);
      assert s[..|s| - 1] == CellsString(init);
      assert s[|s| - 1] == CellString(last)[0];
    }
  }

  lemma {:induction false} CellsStringChars(cells: seq<Option<int>>)
    requires SingleDigitCells(cells)
    ensures |CellsString(cells)| == |cells|
    ensures forall k :: 0 <= k < |CellsString(cells)| ==> CellsString(cells)[k] == '.' || Lib.IsDigit(CellsString(cells)[k])
  {
    if cells != [] {
      var rest := cells[1..];
      assert SingleDigitCells(rest) by {
        forall j | 0 <= j < |rest| ensures rest[j].Some? ==> 0 <= rest[j].value <= 9 {
          assert rest[j] == cells[j + 1];
        }
      }
      CellsStringChars(rest);
      CellStringChar(cells[0]);
      var s := CellsString(cells);
      assert s == CellString(cells[0]) + CellsString(rest);
      forall k | 0 <= k < |s| ensures s[k] == '.' || Lib.IsDigit(s[k]) {
        if k > 0 {
          assert s[k] == CellsString(rest)[k - 1];
        }
      }
    }
  }

  lemma {:induction false} RowsStringLines(rows: seq<seq<Option<int>>>)
    requires forall i :: 0 <= i < |rows| ==> |rows[i]| == 9 && SingleDigitCells(rows[i])
    ensures Lines(RowsString(rows)) == seq(|rows|, i requires 0 <= i < |rows| => CellsString(rows[i]))
  {
    if rows != [] {
      var rest := rows[1..];
      assert forall i :: 0 <= i < |rest| ==> rest[i] == rows[i + 1];
      RowsStringCons(rows);
      RowsStringLines(rest);
      PrintedLinesCons(rows);
    }
  }

  lemma RowsStringCons(rows: seq<seq<Option<int>>>)
    requires rows != [] && |rows[0]| == 9 && SingleDigitCells(rows[0])
    ensures Lines(RowsString(rows)) == [CellsString(rows[0])] + Lines(RowsString(rows[1..]))
  {
    CellsStringEntries(rows[0]);
    assert Take(rows[0], 9) == rows[0];
    LinesCons(CellsString(rows[0]), RowsString(rows[1..]));
  }

  lemma PrintedLinesCons(rows: seq<seq<Option<int>>>)
    requires rows != []
    ensures seq(|rows|, i requires 0 <= i < |rows| => CellsString(rows[i]))
      == [CellsString(rows[0])] + seq(|rows| - 1, i requires 0 <= i < |rows| - 1 => CellsString(rows[1..][i]))
  {
    var lines := seq(|rows|, i requires 0 <= i < |rows| => CellsString(rows[i]));
    var tail := seq(|rows| - 1, i requires 0 <= i < |rows| - 1 => CellsString(rows[1..][i]));
    forall i | 1 <= i < |lines| ensures lines[i] == tail[i - 1] {
      assert rows[1..][i - 1] == rows[i];
    }
    assert lines == [CellsString(rows[0])] + tail;
  }

  /** The lines of a printed grid are the nine printed rows. */
  lemma GridLines(grid: Grid)
    requires SingleDigitGrid(grid)
    ensures Lines(GridString(grid)) == seq(9, i requires 0 <= i < 9 => CellsString(grid[i]))
  {
    assert Take(grid, 9) == grid;
    RowsStringLines(grid);
  }

  /** A printed row of digits and empty cells reads back as itself. */
  lemma CellsRoundTrip(cells: seq<Option<int>>)
    requires SingleDigitCells(cells)
    ensures LineEntries(CellsString(cells), ".") == cells
  {
    DotLineEntries(CellsString(cells));
    CellsStringEntries(cells);
  }

  /** Printing a grid of digits and reading it back with the '.' marker gives the grid. */
  lemma RoundTrip(grid: Grid)
    requires SingleDigitGrid(grid)
    ensures Clues(GridString(grid), ".") == Ok(grid)
  {
    var lines := Lines(GridString(grid));
    GridLines(grid);
    assert |lines| == 9;
    forall i | 0 <= i < 9
      ensures LineEntries(lines[i], ".") == grid[i]
    {
      assert lines[i] == CellsString(grid[i]);
      CellsRoundTrip(grid[i]);
    }
    assert seq(|lines|, i requires 0 <= i < |lines| => LineEntries(lines[i], ".")) == grid;
  }

  // ---------------------------------------------------------------------
  // The empty puzzle.

  /** Nine dots. */
  const DotLine := "........."

  /** A line of nine dots after eight spaces of indentation. */
  const Indented := "        " + DotLine

  /** `k` more copies of `line`, each after a newline. */
  function MoreLines(line: string, k: nat): string
  {
    if k == 0 then "" else "\n" + (line + MoreLines(line, k - 1))
  }

  /** The source's literal: nine lines of nine dots, every line after the first indented by eight spaces. */
  const EmptyText := DotLine + MoreLines(Indented, 8)

  /** The nine-by-nine grid with no clue. */
  function EmptyGrid(): (grid: Grid)
    ensures |grid| == 9 && forall i :: 0 <= i < 9 ==> |grid[i]| == 9 && forall j :: 0 <= j < 9 ==> grid[i][j] == None
  {
    seq(9, i => seq(9, j => None))
  }

  method GetEmptySudoku() returns (result: Result<Grid>)
    ensures result == Ok(EmptyGrid())
  {
    result := CluesFromString(EmptyText, ".");
    EmptyTextClues();
  }

  lemma {:induction false} MoreLinesLines(line: string, k: nat)
    requires '\n' !in line && |line| > 0 && line[|line| - 1] != '\r'
    ensures Lines(line + MoreLines(line, k)) == Copies(line, k + 1)
  {
    if k == 0 {
      assert line + MoreLines(line, k) == line;
      LinesOfOne(line);
    } else {
      var rest := line + MoreLines(line, k - 1);
      assert line + MoreLines(line, k) == line + ("\n" + rest);
      LinesConsRight(line, rest);
      MoreLinesLines(line, k - 1);
      CopiesCons(line, k);
    }
  }

  /** A text without a newline is one line. */
  lemma LinesOfOne(line: string)
    requires '\n' !in line && |line| > 0
    ensures Lines(line) == [line]
  {
  }

  lemma CopiesCons(line: string, k: nat)
    ensures Copies(line, k + 1) == [line] + Copies(line, k)
  {
  }

  /** `k` copies of `line`. */
  function Copies(line: string, k: nat): (lines: seq<string>)
    ensures |lines| == k && forall i :: 0 <= i < k ==> lines[i] == line
  {
    if k == 0 then [] else [line] + Copies(line, k - 1)
  }

  lemma {:induction false} DotsEntries(s: string)
    requires forall i :: 0 <= i < |s| ==> s[i] == '.'
    ensures |DotEntries(s)| == |s| && forall j :: 0 <= j < |s| ==> DotEntries(s)[j] == None
  {
    if s != [] {
      DotsEntries(s[..|s| - 1]);
    }
  }

  lemma EmptyTextLines()
    ensures Lines(EmptyText) == [DotLine] + Copies(Indented, 8)
  {
    LinesConsRight(DotLine, Indented + MoreLines(Indented, 7));
    MoreLinesLines(Indented, 7);
  }

  lemma DotLineEmpty()
    ensures LineEntries(DotLine, ".") == seq(9, j => None)
  {
    DotLineEntries(DotLine);
    DotsEntries(DotLine);
  }

  lemma IndentedEmpty()
    ensures LineEntries(Indented, ".") == seq(9, j => None)
  {
    SkippedPrefix("        ", DotLine);
    DotLineEmpty();
  }

  lemma EmptyTextClues()
    ensures Clues(EmptyText, ".") == Ok(EmptyGrid())
  {
    var lines := Lines(EmptyText);
    EmptyTextLines();
    DotLineEmpty();
    IndentedEmpty();
    forall i | 0 <= i < |lines|
      ensures LineEntries(lines[i], ".") == seq(9, j => None)
    {
      if i > 0 {
        assert lines[i] == Indented;
      }
    }
    AllEmptyLines(EmptyText);
  }

  /** Nine lines that each read as nine empty cells give the empty grid. */
  lemma AllEmptyLines(buf: string)
    requires |Lines(buf)| == 9
    requires forall i :: 0 <= i < 9 ==> LineEntries(Lines(buf)[i], ".") == seq(9, j => None)
    ensures Clues(buf, ".") == Ok(EmptyGrid())
  {
    var lines := Lines(buf);
    assert seq(|lines|, i requires 0 <= i < |lines| => LineEntries(lines[i], ".")) == EmptyGrid();
  }
}
